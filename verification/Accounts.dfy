/** The nonce queues of one sender in the transaction pool: txpool/account.go and txpool/queue.go. */
module Accounts {
  import opened Types
  import opened Heap

  datatype Tx = Tx(from: Address, nonce: nat, gasPrice: nat, gas: nat, size: nat, hash: nat)

  predicate ByNonce(a: Tx, b: Tx) {
    a.nonce < b.nonce
  }

  lemma ByNonceIsOrder()
    ensures Order(ByNonce)
  {
  }

  /** Every nonce in the queue is at least n. */
  ghost predicate AtLeast(s: seq<Tx>, n: nat) {
    forall t :: t in s ==> t.nonce >= n
  }

  ghost predicate Below(s: seq<Tx>, n: nat) {
    forall t :: t in s ==> t.nonce < n
  }

  ghost predicate Consecutive(s: seq<Tx>, start: nat) {
    forall i :: 0 <= i < |s| ==> s[i].nonce == start + i
  }

  /** The head of a nonce queue has the lowest nonce. */
  lemma HeadIsLowest(s: seq<Tx>)
    requires IsHeap(ByNonce, s) && s != []
    ensures AtLeast(s, s[0].nonce)
  {
    ByNonceIsOrder();
    forall t | t in s ensures t.nonce >= s[0].nonce {
      var i :| 0 <= i < |s| && s[i] == t;
      RootIsLeast(ByNonce, s, i);
    }
  }

  /** Removes all transactions with a nonce lower than given, lowest first. */
  method Prune(queue: seq<Tx>, nonce: nat) returns (rest: seq<Tx>, pruned: seq<Tx>)
    requires IsHeap(ByNonce, queue)
    ensures IsHeap(ByNonce, rest)
    ensures multiset(queue) == multiset(rest) + multiset(pruned)
    ensures Below(pruned, nonce) && AtLeast(rest, nonce)
  {
    ByNonceIsOrder();
    rest, pruned := queue, [];
    while rest != [] && rest[0].nonce < nonce
      invariant IsHeap(ByNonce, rest)
      invariant multiset(queue) == multiset(rest) + multiset(pruned)
      invariant Below(pruned, nonce)
      decreases |rest|
    {
      var tx;
      tx, rest := Pop(rest, ByNonce);
      pruned := pruned + [tx];
    }
    if rest != [] {
      HeadIsLowest(rest);
    }
  }

  // ----- Nonces without gaps -----

  ghost predicate HasNonce(m: multiset<Tx>, n: nat) {
    exists t :: t in m && t.nonce == n
  }

  /** No nonce twice. */
  ghost predicate DistinctNonces(m: multiset<Tx>) {
    && (forall t :: t in m ==> m[t] == 1)
    && (forall t, u :: t in m && u in m && t.nonce == u.nonce ==> t == u)
  }

  /** The nonces are exactly the |m| ones right below next, each once. */
  ghost predicate Interval(m: multiset<Tx>, next: nat) {
    && DistinctNonces(m)
    && |m| <= next
    && forall n: nat :: HasNonce(m, n) <==> next - |m| <= n < next
  }

  lemma DistinctWithout(m: multiset<Tx>, t: Tx)
    requires DistinctNonces(m) && t in m
    ensures DistinctNonces(m - multiset{t}) && !HasNonce(m - multiset{t}, t.nonce)
  {
  }

  lemma PopInterval(m: multiset<Tx>, next: nat, t: Tx)
    requires Interval(m, next) && t in m && forall u :: u in m ==> u.nonce >= t.nonce
    ensures Interval(m - multiset{t}, next)
  {
    var r := m - multiset{t};
    DistinctWithout(m, t);
    assert HasNonce(m, t.nonce) && HasNonce(m, next - |m|);
    assert t.nonce == next - |m|;
    forall n: nat ensures HasNonce(r, n) <==> next - |r| <= n < next {
      if HasNonce(m, n) && n != t.nonce {
        var u :| u in m && u.nonce == n;
        assert u in r;
      }
      if HasNonce(r, n) {
        var u :| u in r && u.nonce == n;
        assert u in m;
      }
    }
  }

  lemma PushInterval(m: multiset<Tx>, next: nat, t: Tx)
    requires Interval(m, next) && t.nonce == next
    ensures Interval(m + multiset{t}, next + 1)
  {
    var r := m + multiset{t};
    assert !HasNonce(m, next);
    assert t !in m;
    forall n: nat ensures HasNonce(r, n) <==> next + 1 - |r| <= n < next + 1 {
      if HasNonce(m, n) {
        var u :| u in m && u.nonce == n;
        assert u in r;
      }
      if n == next {
        assert t in r;
      }
      if HasNonce(r, n) && n != next {
        var u :| u in r && u.nonce == n;
        assert u in m;
      }
    }
  }

  /** The queues and the next nonce of a sender. */
  datatype Queues = Queues(enqueued: seq<Tx>, promoted: seq<Tx>, nextNonce: nat) {
    /** What holds of every sender in every reachable pool. */
    ghost predicate Valid() {
      IsHeap(ByNonce, enqueued) && IsHeap(ByNonce, promoted) && Below(promoted, nextNonce)
    }

    /** What holds as long as no nonce is enqueued twice: the enqueued nonces are distinct and not below the
        next one, and the promoted ones fill the interval right below it. */
    ghost predicate GapFree() {
      && AtLeast(enqueued, nextNonce)
      && DistinctNonces(multiset(enqueued))
      && Interval(multiset(promoted), nextNonce)
    }
  }

  class Account {
    var enqueued: seq<Tx>
    var promoted: seq<Tx>
    var nextNonce: nat

    ghost function Q(): Queues
      reads this
    {
      Queues(enqueued, promoted, nextNonce)
    }

    constructor (nonce: nat)
      ensures Q() == Queues([], [], nonce) && Q().Valid() && Q().GapFree()
    {
      enqueued, promoted, nextNonce := [], [], nonce;
    }

    /** The nonces stay free of gaps exactly when the new one was not enqueued yet. */
    method Enqueue(tx: Tx) returns (ok: bool)
      requires Q().Valid()
      modifies this
      ensures Q().Valid()
      ensures ok <==> tx.nonce >= old(nextNonce)
      ensures !ok ==> Q() == old(Q())
      ensures ok ==> multiset(enqueued) == old(multiset(enqueued)) + multiset{tx}
      ensures promoted == old(promoted) && nextNonce == old(nextNonce)
      ensures ok && old(Q().GapFree()) ==> (Q().GapFree() <==> !HasNonce(old(multiset(enqueued)), tx.nonce))
    {
      if tx.nonce < nextNonce {
        return false;
      }
      ByNonceIsOrder();
      enqueued := Push(enqueued, tx, ByNonce);
      if old(Q().GapFree()) {
        EnqueueDistinct(old(enqueued), enqueued, tx, nextNonce);
      }
      return true;
    }

    /** Moves the run of consecutive nonces at the head of the enqueued queue, if it starts no later than the
        next nonce. With no nonce enqueued twice it starts at the next nonce and the rest lies above. */
    method Promote() returns (moved: seq<Tx>)
      requires Q().Valid()
      modifies this
      ensures Q().Valid()
      ensures multiset(old(enqueued)) == multiset(enqueued) + multiset(moved)
      ensures multiset(promoted) == multiset(old(promoted)) + multiset(moved)
      ensures moved == [] <==> old(enqueued == [] || enqueued[0].nonce > nextNonce)
      ensures moved == [] ==> nextNonce == old(nextNonce)
      ensures moved != [] ==>
        var start := old(enqueued)[0].nonce;
        && Consecutive(moved, start)
        && nextNonce == (if old(nextNonce) < start + |moved| then start + |moved| else old(nextNonce))
        && (enqueued == [] || enqueued[0].nonce != start + |moved|)
      ensures old(Q().GapFree()) ==> Q().GapFree() && !HasNonce(multiset(enqueued), nextNonce)
    {
      moved := [];
      if enqueued == [] || enqueued[0].nonce > nextNonce {
        if Q().GapFree() {
          NextMissing(enqueued, nextNonce);
        }
        return;
      }
      var start := enqueued[0].nonce;
      enqueued, promoted, moved := MoveRun(enqueued, promoted, start);
      if start + |moved| > nextNonce {
        nextNonce := start + |moved|;
      }
      PromotedBelow(old(promoted), moved, promoted, old(nextNonce), start, nextNonce);
      if old(Q().GapFree()) {
        PromoteGapFree(old(Q()), Q(), moved);
      }
    }

    /** Takes the head off the promoted queue; there is one. */
    method PopPromoted() returns (tx: Tx)
      requires Q().Valid() && promoted != []
      modifies this
      ensures tx == old(promoted)[0]
      ensures Q().Valid() && enqueued == old(enqueued) && nextNonce == old(nextNonce)
      ensures multiset(old(promoted)) == multiset(promoted) + multiset{tx}
      ensures AtLeast(promoted, tx.nonce)
      ensures old(Q().GapFree()) ==> Q().GapFree()
    {
      ByNonceIsOrder();
      HeadIsLowest(promoted);
      tx, promoted := Pop(promoted, ByNonce);
      Subqueue(old(promoted), promoted, multiset{tx});
      if old(Q().GapFree()) {
        assert multiset(promoted) == multiset(old(promoted)) - multiset{tx};
        PopInterval(multiset(old(promoted)), nextNonce, tx);
      }
    }

    /** Empties both queues and sets the next nonce. */
    method Clear(nonce: nat) returns (dropped: seq<Tx>, removed: seq<Tx>)
      modifies this
      ensures Q() == Queues([], [], nonce) && Q().Valid() && Q().GapFree()
      ensures dropped == old(promoted) && removed == old(enqueued)
    {
      nextNonce := nonce;
      dropped, promoted := promoted, [];
      removed, enqueued := enqueued, [];
    }

    /** Aligns the sender with the nonce in the state: what is below goes, and if the state is ahead of the
        next nonce that one follows. Returns whether the head of the enqueued queue is now due. */
    method Reset(nonce: nat) returns (pruned: seq<Tx>, removed: seq<Tx>, due: bool)
      requires Q().Valid()
      modifies this
      ensures Q().Valid()
      ensures multiset(old(promoted)) == multiset(promoted) + multiset(pruned)
      ensures multiset(old(enqueued)) == multiset(enqueued) + multiset(removed)
      ensures Below(pruned, nonce) && AtLeast(promoted, nonce) && Below(removed, nonce)
      ensures nextNonce == if nonce <= old(nextNonce) then old(nextNonce) else nonce
      ensures nonce <= old(nextNonce) ==> enqueued == old(enqueued) && removed == [] && !due
      ensures nonce > old(nextNonce) ==> AtLeast(enqueued, nonce) && (due <==> HasNonce(multiset(enqueued), nonce))
      ensures old(Q().GapFree()) ==> Q().GapFree()
    {
      removed, due := [], false;
      promoted, pruned := Prune(promoted, nonce);
      Subqueue(old(promoted), promoted, multiset(pruned));
      if old(Q().GapFree()) {
        PruneInterval(multiset(promoted), multiset(pruned), nextNonce, nonce);
      }
      if nonce > nextNonce {
        enqueued, removed := Prune(enqueued, nonce);
        if old(Q().GapFree()) {
          DistinctPart(multiset(enqueued), multiset(removed));
          AllPruned(promoted, nextNonce, nonce);
        }
        nextNonce := nonce;
        due := enqueued != [] && enqueued[0].nonce == nonce;
        if due {
          assert enqueued[0] in multiset(enqueued);
        } else {
          NextMissing(enqueued, nonce);
        }
      }
    }
  }

  lemma Subqueue(s: seq<Tx>, r: seq<Tx>, d: multiset<Tx>)
    requires multiset(s) == multiset(r) + d
    ensures forall t :: t in r ==> t in s
  {
    forall t | t in r ensures t in s {
      assert t in multiset(r);
      assert t in multiset(s);
    }
  }

  lemma DistinctPart(r: multiset<Tx>, d: multiset<Tx>)
    requires DistinctNonces(r + d)
    ensures DistinctNonces(r)
  {
    forall t | t in r ensures r[t] == 1 {
      assert t in r + d;
    }
    forall t, u | t in r && u in r && t.nonce == u.nonce ensures t == u {
      assert t in r + d && u in r + d;
    }
  }

  /** An interval pruned from below is one. */
  lemma {:induction false} PruneInterval(r: multiset<Tx>, d: multiset<Tx>, next: nat, nonce: nat)
    requires Interval(r + d, next) && From(r, nonce) && forall t :: t in d ==> t.nonce < nonce
    ensures Interval(r, next)
    decreases |d|
  {
    if d == multiset{} {
      assert r + d == r;
    } else {
      var m := r + d;
      assert HasNonce(m, next - |m|);
      var t :| t in m && t.nonce == next - |m|;
      var u :| u in d;
      assert u in m && HasNonce(m, u.nonce);
      assert t in d;
      LowestFirst(m, next, t);
      PopInterval(m, next, t);
      assert m - multiset{t} == r + (d - multiset{t});
      PruneInterval(r, d - multiset{t}, next, nonce);
    }
  }

  lemma LowestFirst(m: multiset<Tx>, next: nat, t: Tx)
    requires Interval(m, next) && t.nonce == next - |m|
    ensures From(m, t.nonce)
  {
    forall u | u in m ensures u.nonce >= t.nonce {
      assert HasNonce(m, u.nonce);
    }
  }

  lemma AllPruned(promoted: seq<Tx>, next: nat, nonce: nat)
    requires Below(promoted, next) && AtLeast(promoted, nonce) && next < nonce
    ensures promoted == [] && Interval(multiset(promoted), nonce)
  {
    assert forall t :: t in promoted ==> t.nonce < next < nonce <= t.nonce;
    Inhabited(promoted);
  }

  lemma Inhabited<T>(s: seq<T>)
    ensures s != [] ==> exists x :: x in s
  {
    assert s != [] ==> s[0] in s;
  }

  /** The loop of promote: pops from one queue and pushes to the other as long as the nonces follow. */
  method MoveRun(enqueued: seq<Tx>, promoted: seq<Tx>, start: nat) returns (e: seq<Tx>, p: seq<Tx>, moved: seq<Tx>)
    requires IsHeap(ByNonce, enqueued) && IsHeap(ByNonce, promoted) && enqueued != [] && enqueued[0].nonce == start
    ensures IsHeap(ByNonce, e) && IsHeap(ByNonce, p)
    ensures multiset(enqueued) == multiset(e) + multiset(moved)
    ensures multiset(p) == multiset(promoted) + multiset(moved)
    ensures moved != [] && Consecutive(moved, start)
    ensures e == [] || e[0].nonce != start + |moved|
  {
    ByNonceIsOrder();
    e, p, moved := enqueued, promoted, [];
    while e != [] && e[0].nonce == start + |moved|
      invariant IsHeap(ByNonce, e) && IsHeap(ByNonce, p)
      invariant multiset(enqueued) == multiset(e) + multiset(moved)
      invariant multiset(p) == multiset(promoted) + multiset(moved)
      invariant Consecutive(moved, start) && (moved == [] ==> e == enqueued)
      decreases |e|
    {
      var tx;
      tx, e := Pop(e, ByNonce);
      p := Push(p, tx, ByNonce);
      moved := moved + [tx];
    }
  }

  ghost predicate From(m: multiset<Tx>, n: nat) {
    forall t :: t in m ==> t.nonce >= n
  }

  /** A run that starts at the next nonce extends the interval. */
  lemma {:induction false} MovedInterval(p: multiset<Tx>, start: nat, moved: seq<Tx>)
    requires Interval(p, start) && Consecutive(moved, start)
    ensures Interval(p + multiset(moved), start + |moved|)
    decreases |moved|
  {
    if moved == [] {
      assert p + multiset(moved) == p;
    } else {
      var k := |moved| - 1;
      assert moved == moved[..k] + [moved[k]];
      MovedInterval(p, start, moved[..k]);
      PushInterval(p + multiset(moved[..k]), start + k, moved[k]);
      assert p + multiset(moved[..k]) + multiset{moved[k]} == p + multiset(moved);
    }
  }

  /** Without that run, the distinct nonces left lie above it. */
  lemma {:induction false} RestAbove(e: multiset<Tx>, start: nat, moved: seq<Tx>)
    requires DistinctNonces(e + multiset(moved)) && From(e + multiset(moved), start) && Consecutive(moved, start)
    ensures DistinctNonces(e) && From(e, start + |moved|)
    decreases |moved|
  {
    if moved == [] {
      assert e + multiset(moved) == e;
    } else {
      var k := |moved| - 1;
      var tx, e' := moved[k], e + multiset{moved[k]};
      assert moved == moved[..k] + [tx];
      assert e' + multiset(moved[..k]) == e + multiset(moved);
      RestAbove(e', start, moved[..k]);
      DistinctWithout(e', tx);
      assert e' - multiset{tx} == e;
      forall t | t in e ensures t.nonce >= start + |moved| {
        assert t in e' && !HasNonce(e, tx.nonce);
      }
    }
  }

  lemma NextMissing(e: seq<Tx>, n: nat)
    requires IsHeap(ByNonce, e) && AtLeast(e, n) && (e == [] || e[0].nonce != n)
    ensures !HasNonce(multiset(e), n)
  {
    if e != [] {
      HeadIsLowest(e);
      assert e[0] in e;
    }
    forall t | t in multiset(e) ensures t.nonce != n {
      assert t in e;
    }
  }

  lemma PromoteGapFree(q: Queues, q': Queues, moved: seq<Tx>)
    requires q.Valid() && q.GapFree() && q'.Valid() && q.enqueued != [] && q.enqueued[0].nonce <= q.nextNonce
    requires Consecutive(moved, q.enqueued[0].nonce)
    requires multiset(q.enqueued) == multiset(q'.enqueued) + multiset(moved)
    requires multiset(q'.promoted) == multiset(q.promoted) + multiset(moved)
    requires q'.nextNonce == q.nextNonce + |moved| || (q'.nextNonce == q.nextNonce && moved == [])
    requires q'.enqueued == [] || q'.enqueued[0].nonce != q.nextNonce + |moved|
    ensures q'.GapFree() && !HasNonce(multiset(q'.enqueued), q'.nextNonce)
  {
    assert q.enqueued[0] in q.enqueued;
    forall t | t in multiset(q'.enqueued) + multiset(moved) ensures t.nonce >= q.nextNonce {
      assert t in multiset(q.enqueued);
      assert t in q.enqueued;
    }
    MovedInterval(multiset(q.promoted), q.nextNonce, moved);
    RestAbove(multiset(q'.enqueued), q.nextNonce, moved);
    forall t | t in q'.enqueued ensures t.nonce >= q'.nextNonce {
      assert t in multiset(q'.enqueued);
    }
    NextMissing(q'.enqueued, q'.nextNonce);
  }

  lemma PromotedBelow(s: seq<Tx>, moved: seq<Tx>, r: seq<Tx>, next: nat, start: nat, next': nat)
    requires multiset(r) == multiset(s) + multiset(moved) && Below(s, next) && Consecutive(moved, start)
    requires next <= next' && start + |moved| <= next'
    ensures Below(r, next')
  {
    forall t | t in r ensures t.nonce < next' {
      assert t in multiset(r);
      if t !in s {
        assert t in multiset(moved);
        assert t in moved;
      }
    }
  }

  lemma EnqueueDistinct(s: seq<Tx>, r: seq<Tx>, tx: Tx, next: nat)
    requires multiset(r) == multiset(s) + multiset{tx} && tx.nonce >= next && AtLeast(s, next)
    ensures AtLeast(r, next)
    ensures DistinctNonces(multiset(s)) ==> (DistinctNonces(multiset(r)) <==> !HasNonce(multiset(s), tx.nonce))
  {
    forall t | t in r ensures t.nonce >= next {
      assert t in multiset(r);
    }
    var m, n := multiset(s), multiset(r);
    if DistinctNonces(m) && HasNonce(m, tx.nonce) {
      var u :| u in m && u.nonce == tx.nonce;
      assert u in n && tx in n && (u == tx ==> n[tx] == 2);
    }
  }
}
