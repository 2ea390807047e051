/** Choosing the transactions of a block: writeTransactions of consensus/pvbft/ibft.go on the pool, with no other
    pool operation in between. What the state transition answers to each transaction comes from outside. */
module BlockBuilder {
  import opened Types
  import opened Sums
  import opened Accounts
  import opened TxPools

  /** The transition's answer: accepted (or a failed receipt written), the block is full, or any other error. */
  datatype Answer = Accepted | GasLimitReached | Refused

  // ----- What the loop uses up -----

  ghost function CountBySender(p: Senders): map<Address, nat> {
    map a | a in p :: |p[a].promoted|
  }

  /** All promoted transactions in the pool. */
  ghost function PromotedCount(p: Senders): nat {
    Sum(CountBySender(p))
  }

  lemma CountPut(p: Senders, a: Address, q: Queues)
    requires a in p
    ensures PromotedCount(p[a := q]) == PromotedCount(p) + |q.promoted| - |p[a].promoted|
  {
    SumPut(CountBySender(p), a, |q.promoted|);
    assert CountBySender(p[a := q]) == CountBySender(p)[a := |q.promoted|];
  }

  // ----- The picks of a pass -----

  /** One pick from the pool p: a head of the highest price, which is popped, or whose sender is dropped. */
  ghost predicate PickStep(p: Senders, p': Senders, tx: Tx, pops: bool) {
    && BestHead(p, Some(tx)) && tx.from in p' && p' == p[tx.from := p'[tx.from]]
    && if pops then Popped(p[tx.from], p'[tx.from], tx) else p'[tx.from] == Queues([], [], tx.nonce)
  }

  /** The pool before every pick and after the last one: each transaction had the highest price when it was
      picked, and is popped exactly if it fits the block's gas limit and was accepted. */
  ghost predicate PassOf(pools: seq<Senders>, picked: seq<Tx>, gasLimit: nat, answers: nat -> Answer) {
    |pools| == |picked| + 1 && forall i :: 0 <= i < |picked| ==> PickAt(pools, picked, gasLimit, answers, i)
  }

  ghost predicate PickAt(pools: seq<Senders>, picked: seq<Tx>, gasLimit: nat, answers: nat -> Answer, i: nat)
    requires |pools| == |picked| + 1 && i < |picked|
  {
    PickStep(pools[i], pools[i + 1], picked[i], picked[i].gas <= gasLimit && answers(i).Accepted?)
  }

  lemma PassOneMore(pools: seq<Senders>, picked: seq<Tx>, gasLimit: nat, answers: nat -> Answer, p': Senders, tx: Tx)
    requires PassOf(pools, picked, gasLimit, answers)
    requires PickStep(pools[|picked|], p', tx, tx.gas <= gasLimit && answers(|picked|).Accepted?)
    ensures PassOf(pools + [p'], picked + [tx], gasLimit, answers)
  {
    forall i | 0 <= i < |picked| + 1 ensures PickAt(pools + [p'], picked + [tx], gasLimit, answers, i) {
      assert i < |picked| ==> PickAt(pools, picked, gasLimit, answers, i);
    }
  }

  // ----- What has been picked -----

  /** Each sender's transactions come in nondecreasing nonce order. */
  ghost predicate NonceOrdered(s: seq<Tx>) {
    forall i, j :: 0 <= i < j < |s| && s[i].from == s[j].from ==> s[i].nonce <= s[j].nonce
  }

  /** Nothing promoted has a lower nonce than what was picked of its sender. */
  ghost predicate Ahead(picked: seq<Tx>, p: Senders) {
    forall u, t :: u in picked && u.from in p && t in p[u.from].promoted ==> u.nonce <= t.nonce
  }

  ghost function PickedFrom(picked: seq<Tx>, a: Address): multiset<Tx> {
    if picked == [] then multiset{}
    else
      var t := picked[|picked| - 1];
      PickedFrom(picked[..|picked| - 1], a) + if t.from == a then multiset{t} else multiset{}
  }

  lemma PickedOneMore(picked: seq<Tx>, tx: Tx, a: Address)
    ensures PickedFrom(picked + [tx], a)
         == PickedFrom(picked, a) + if tx.from == a then multiset{tx} else multiset{}
  {
    assert (picked + [tx])[..|picked|] == picked;
  }

  /** The i-th pick fits the block and was accepted. */
  predicate Passes(picked: seq<Tx>, gasLimit: nat, answers: nat -> Answer, i: nat)
    requires i < |picked|
  {
    picked[i].gas <= gasLimit && answers(i).Accepted?
  }

  lemma PickOfSender(p: Senders, p': Senders, tx: Tx, pops: bool, a: Address)
    requires PickStep(p, p', tx, pops) && a in p
    ensures a in p' && (tx.from != a ==> p'[a] == p[a])
    ensures tx.from == a ==> p[a].promoted != []
    ensures tx.from == a && pops ==>
      && p'[a].enqueued == p[a].enqueued && p'[a].nextNonce == p[a].nextNonce
      && multiset(p[a].promoted) == multiset(p'[a].promoted) + multiset{tx}
    ensures tx.from == a && !pops ==> p'[a] == Queues([], [], tx.nonce)
  {
  }

  /** As long as a sender's transactions pass, they leave its promoted queue and nothing else changes. */
  lemma {:induction false} SenderKept(pools: seq<Senders>, picked: seq<Tx>, gasLimit: nat, answers: nat -> Answer,
                                      a: Address, n: nat)
    requires PassOf(pools, picked, gasLimit, answers) && n <= |picked| && a in pools[0]
    requires forall i :: 0 <= i < n && picked[i].from == a ==> Passes(picked, gasLimit, answers, i)
    ensures a in pools[n]
    ensures pools[n][a].enqueued == pools[0][a].enqueued && pools[n][a].nextNonce == pools[0][a].nextNonce
    ensures multiset(pools[0][a].promoted) == multiset(pools[n][a].promoted) + PickedFrom(picked[..n], a)
  {
    if n > 0 {
      var k, tx := n - 1, picked[n - 1];
      SenderKept(pools, picked, gasLimit, answers, a, k);
      assert PickAt(pools, picked, gasLimit, answers, k);
      PickOfSender(pools[k], pools[n], tx, Passes(picked, gasLimit, answers, k), a);
      PickedOneMore(picked[..k], tx, a);
      assert picked[..n] == picked[..k] + [tx];
    }
  }

  /** The first of a sender's transactions that does not pass is its last pick, and its queues are emptied. */
  lemma {:induction false} SenderDropped(pools: seq<Senders>, picked: seq<Tx>, gasLimit: nat, answers: nat -> Answer,
                                         i: nat, n: nat)
    requires PassOf(pools, picked, gasLimit, answers) && i < n <= |picked|
    requires !Passes(picked, gasLimit, answers, i)
    ensures var a := picked[i].from; a in pools[n] && pools[n][a] == Queues([], [], picked[i].nonce)
    ensures forall j :: i < j < n ==> picked[j].from != picked[i].from
  {
    var k := n - 1;
    if i < k {
      SenderDropped(pools, picked, gasLimit, answers, i, k);
    }
    assert PickAt(pools, picked, gasLimit, answers, k);
    PickOfSender(pools[k], pools[n], picked[k], Passes(picked, gasLimit, answers, k), picked[i].from);
  }

  /** Either the sender was dropped, at the nonce of one of its picked transactions, or what was picked of it
      is exactly what left its promoted queue, and all of it is in the block. */
  ghost predicate Accounted(q: Queues, q': Queues, picked: seq<Tx>, block: seq<Tx>, a: Address) {
    || (exists t :: t in picked && t.from == a && q' == Queues([], [], t.nonce))
    || (&& q'.enqueued == q.enqueued && q'.nextNonce == q.nextNonce
        && multiset(q.promoted) == multiset(q'.promoted) + PickedFrom(picked, a)
        && (forall t :: t in PickedFrom(picked, a) ==> t in block)
        && (q.GapFree() ==> q'.GapFree()))
  }

  ghost predicate AllAccounted(p: Senders, p': Senders, picked: seq<Tx>, block: seq<Tx>) {
    p'.Keys == p.Keys && forall a :: a in p ==> Accounted(p[a], p'[a], picked, block, a)
  }

  /** Where the pass stands: the pool was p at the start and is p' now. */
  ghost predicate Progress(p: Senders, p': Senders, picked: seq<Tx>, block: seq<Tx>) {
    && AllAccounted(p, p', picked, block)
    && Ahead(picked, p')
    && NonceOrdered(picked) && NonceOrdered(block)
    && forall t :: t in block ==> t in picked
  }

  lemma OrderedOneMore(picked: seq<Tx>, s: seq<Tx>, p: Senders, tx: Tx)
    requires NonceOrdered(s) && Ahead(picked, p) && IsHead(p, tx) && forall t :: t in s ==> t in picked
    ensures NonceOrdered(s + [tx])
  {
    assert tx in p[tx.from].promoted;
    var r := s + [tx];
    forall i, j | 0 <= i < j < |r| && r[i].from == r[j].from ensures r[i].nonce <= r[j].nonce {
      if j == |s| {
        assert s[i] in picked;
      }
    }
  }

  lemma AheadAfterPop(picked: seq<Tx>, p: Senders, p': Senders, tx: Tx)
    requires Ahead(picked, p) && tx.from in p && tx.from in p' && p' == p[tx.from := p'[tx.from]]
    requires Popped(p[tx.from], p'[tx.from], tx)
    ensures Ahead(picked + [tx], p')
  {
    Subqueue(p[tx.from].promoted, p'[tx.from].promoted, multiset{tx});
    forall u, t | u in picked + [tx] && u.from in p' && t in p'[u.from].promoted ensures u.nonce <= t.nonce {
      if u != tx {
        assert u in picked && t in p[u.from].promoted;
      }
    }
  }

  lemma AheadAfterDrop(picked: seq<Tx>, p: Senders, tx: Tx)
    requires Ahead(picked, p) && tx.from in p
    ensures Ahead(picked + [tx], p[tx.from := Queues([], [], tx.nonce)])
  {
    var p' := p[tx.from := Queues([], [], tx.nonce)];
    forall u, t | u in picked + [tx] && u.from in p' && t in p'[u.from].promoted ensures u.nonce <= t.nonce {
      if u != tx {
        assert u in picked && t in p[u.from].promoted;
      }
    }
  }

  /** Another sender's account stays as accounted for. */
  lemma AccountedElsewhere(q: Queues, q': Queues, picked: seq<Tx>, block: seq<Tx>, a: Address, tx: Tx, block': seq<Tx>)
    requires Accounted(q, q', picked, block, a) && tx.from != a && forall t :: t in block ==> t in block'
    ensures Accounted(q, q', picked + [tx], block', a)
  {
    PickedOneMore(picked, tx, a);
    assert PickedFrom(picked + [tx], a) == PickedFrom(picked, a);
    if t :| t in picked && t.from == a && q' == Queues([], [], t.nonce) {
      assert t in picked + [tx];
    }
  }

  /** A dropped sender has no head to pick. */
  lemma AccountedPop(q: Queues, q1: Queues, q2: Queues, picked: seq<Tx>, block: seq<Tx>, tx: Tx)
    requires Accounted(q, q1, picked, block, tx.from) && Popped(q1, q2, tx)
    ensures Accounted(q, q2, picked + [tx], block + [tx], tx.from)
  {
    PickedOneMore(picked, tx, tx.from);
    assert multiset(q.promoted) == multiset(q2.promoted) + PickedFrom(picked + [tx], tx.from);
    forall t | t in PickedFrom(picked + [tx], tx.from) ensures t in block + [tx] {
      assert t == tx || t in PickedFrom(picked, tx.from);
    }
  }

  lemma ProgressPop(p: Senders, p1: Senders, p2: Senders, picked: seq<Tx>, block: seq<Tx>, tx: Tx)
    requires Progress(p, p1, picked, block) && IsHead(p1, tx)
    requires tx.from in p2 && p2 == p1[tx.from := p2[tx.from]] && Popped(p1[tx.from], p2[tx.from], tx)
    ensures Progress(p, p2, picked + [tx], block + [tx])
    ensures PromotedCount(p2) < PromotedCount(p1)
  {
    OrderedOneMore(picked, picked, p1, tx);
    OrderedOneMore(picked, block, p1, tx);
    AheadAfterPop(picked, p1, p2, tx);
    CountPut(p1, tx.from, p2[tx.from]);
    PopShortens(p1[tx.from], p2[tx.from], tx);
    AllAccountedPop(p, p1, p2, picked, block, tx);
  }

  lemma AllAccountedPop(p: Senders, p1: Senders, p2: Senders, picked: seq<Tx>, block: seq<Tx>, tx: Tx)
    requires AllAccounted(p, p1, picked, block) && tx.from in p1 && tx.from in p2
    requires p2 == p1[tx.from := p2[tx.from]] && Popped(p1[tx.from], p2[tx.from], tx)
    ensures AllAccounted(p, p2, picked + [tx], block + [tx])
  {
    forall a | a in p ensures Accounted(p[a], p2[a], picked + [tx], block + [tx], a) {
      if a == tx.from {
        AccountedPop(p[a], p1[a], p2[a], picked, block, tx);
      } else {
        AccountedElsewhere(p[a], p1[a], picked, block, a, tx, block + [tx]);
      }
    }
  }

  lemma PopShortens(q: Queues, q': Queues, tx: Tx)
    requires Popped(q, q', tx)
    ensures |q'.promoted| < |q.promoted|
  {
    assert |multiset(q.promoted)| == |multiset(q'.promoted)| + 1;
  }

  lemma ProgressDrop(p: Senders, p1: Senders, picked: seq<Tx>, block: seq<Tx>, tx: Tx, block': seq<Tx>)
    requires Progress(p, p1, picked, block) && IsHead(p1, tx) && (block' == block || block' == block + [tx])
    ensures var p2 := p1[tx.from := Queues([], [], tx.nonce)];
      Progress(p, p2, picked + [tx], block') && PromotedCount(p2) < PromotedCount(p1)
  {
    var p2 := p1[tx.from := Queues([], [], tx.nonce)];
    OrderedOneMore(picked, picked, p1, tx);
    OrderedOneMore(picked, block, p1, tx);
    AheadAfterDrop(picked, p1, tx);
    CountPut(p1, tx.from, p2[tx.from]);
    AllAccountedDrop(p, p1, picked, block, tx, block');
  }

  lemma AllAccountedDrop(p: Senders, p1: Senders, picked: seq<Tx>, block: seq<Tx>, tx: Tx, block': seq<Tx>)
    requires AllAccounted(p, p1, picked, block) && tx.from in p1 && forall t :: t in block ==> t in block'
    ensures AllAccounted(p, p1[tx.from := Queues([], [], tx.nonce)], picked + [tx], block')
  {
    var p2 := p1[tx.from := Queues([], [], tx.nonce)];
    forall a | a in p ensures Accounted(p[a], p2[a], picked + [tx], block', a) {
      if a == tx.from {
        assert tx in picked + [tx];
      } else {
        AccountedElsewhere(p[a], p1[a], picked, block, a, tx, block');
      }
    }
  }

  method PopTurn(pool: TxPool, tx: Tx, ghost p: Senders, ghost picked: seq<Tx>, ghost block: seq<Tx>)
    requires pool.Valid() && HeadsOutside(pool.executables, pool.Abs(), {tx.from}) && IsHead(pool.Abs(), tx)
    requires Progress(p, pool.Abs(), picked, block)
    modifies pool`executables, pool.gauge, pool.accounts[tx.from]
    ensures pool.Valid() && HeadsOutside(pool.executables, pool.Abs(), {})
    ensures Progress(p, pool.Abs(), picked + [tx], block + [tx])
    ensures PromotedCount(pool.Abs()) < PromotedCount(old(pool.Abs()))
    ensures tx.from in pool.Abs() && pool.Abs() == old(pool.Abs())[tx.from := pool.Abs()[tx.from]]
    ensures Popped(old(pool.Abs())[tx.from], pool.Abs()[tx.from], tx)
  {
    pool.Pop(tx);
    ProgressPop(p, old(pool.Abs()), pool.Abs(), picked, block, tx);
  }

  method DropTurn(pool: TxPool, tx: Tx, ghost p: Senders, ghost picked: seq<Tx>, ghost block: seq<Tx>,
                  ghost block': seq<Tx>)
    requires pool.Valid() && HeadsOutside(pool.executables, pool.Abs(), {tx.from}) && IsHead(pool.Abs(), tx)
    requires Progress(p, pool.Abs(), picked, block) && (block' == block || block' == block + [tx])
    modifies pool`index, pool.gauge, pool.accounts[tx.from]
    ensures pool.Valid() && HeadsOutside(pool.executables, pool.Abs(), {})
    ensures Progress(p, pool.Abs(), picked + [tx], block')
    ensures PromotedCount(pool.Abs()) < PromotedCount(old(pool.Abs()))
    ensures pool.Abs() == old(pool.Abs())[tx.from := Queues([], [], tx.nonce)]
  {
    ProgressDrop(p, pool.Abs(), picked, block, tx, block');
    pool.Drop(tx);
  }

  /** One pick: the best-priced head is written, and popped if accepted, or its sender is dropped. */
  method Turn(pool: TxPool, tx: Tx, gasLimit: nat, answer: Answer, block: seq<Tx>, ghost p: Senders,
              ghost picked: seq<Tx>)
    returns (block': seq<Tx>)
    requires pool.Valid() && HeadsOutside(pool.executables, pool.Abs(), {tx.from}) && BestHead(pool.Abs(), Some(tx))
    requires Progress(p, pool.Abs(), picked, block) && (tx.gas <= gasLimit ==> !answer.GasLimitReached?)
    modifies pool`executables, pool`index, pool.gauge, pool.accounts[tx.from]
    ensures pool.Valid() && HeadsOutside(pool.executables, pool.Abs(), {})
    ensures Progress(p, pool.Abs(), picked + [tx], block')
    ensures PromotedCount(pool.Abs()) < PromotedCount(old(pool.Abs()))
    ensures block' == if answer.Accepted? then block + [tx] else block
    ensures PickStep(old(pool.Abs()), pool.Abs(), tx, tx.gas <= gasLimit && answer.Accepted?)
  {
    block' := if answer.Accepted? then block + [tx] else block;
    if tx.gas <= gasLimit && answer.Accepted? {
      PopTurn(pool, tx, p, picked, block);
    } else {
      DropTurn(pool, tx, p, picked, block, block');
    }
  }

  /** The picked transactions whose answer was to accept them. */
  function Chosen(picked: seq<Tx>, answers: nat -> Answer): seq<Tx> {
    if picked == [] then []
    else
      var k := |picked| - 1;
      Chosen(picked[..k], answers) + if answers(k).Accepted? then [picked[k]] else []
  }

  lemma ChosenOneMore(picked: seq<Tx>, tx: Tx, answers: nat -> Answer)
    ensures Chosen(picked + [tx], answers)
         == Chosen(picked, answers) + if answers(|picked|).Accepted? then [tx] else []
  {
    assert (picked + [tx])[..|picked|] == picked;
  }

  /** Why a pass ends. */
  datatype Status = Going | Empty | Full

  /** Takes the best-priced head and deals with it, unless there is none or the block is full. */
  method Pick(pool: TxPool, gasLimit: nat, answer: Answer, block: seq<Tx>, ghost p: Senders, ghost picked: seq<Tx>)
    returns (status: Status, tx: Option<Tx>, block': seq<Tx>)
    requires pool.Valid() && HeadsOutside(pool.executables, pool.Abs(), {}) && Progress(p, pool.Abs(), picked, block)
    modifies pool`executables, pool`index, pool.gauge, pool.accounts.Values
    ensures pool.Valid() && (status.Going? <==> tx.Some?)
    ensures Progress(p, pool.Abs(), if tx.Some? then picked + [tx.value] else picked, block')
    ensures status.Going? ==>
      && HeadsOutside(pool.executables, pool.Abs(), {})
      && PromotedCount(pool.Abs()) < PromotedCount(old(pool.Abs()))
      && block' == (if answer.Accepted? then block + [tx.value] else block)
    ensures status.Going? ==>
      PickStep(old(pool.Abs()), pool.Abs(), tx.value, tx.value.gas <= gasLimit && answer.Accepted?)
    ensures !status.Going? ==> block' == block && pool.Abs() == old(pool.Abs())
    ensures status.Empty? ==> Drained(pool.Abs())
    ensures status.Full? ==> answer.GasLimitReached?
  {
    block' := block;
    var head := pool.Peek();
    if head.None? {
      return Empty, None, block;
    }
    if head.value.gas <= gasLimit && answer.GasLimitReached? {
      return Full, None, block;
    }
    block' := Turn(pool, head.value, gasLimit, answer, block, p, picked);
    return Going, head, block';
  }

  /** The whole pass. It ends with no promoted transaction left or a full block. Every pick is a head of the highest
      price at that time. The block holds exactly the picked transactions that were accepted, in nonce order
      per sender, and then the reward transaction if there is one; every sender is accounted for. */
  method WriteTransactions(pool: TxPool, gasLimit: nat, answers: nat -> Answer, reward: Option<Tx>)
    returns (transactions: seq<Tx>, full: bool, ghost picked: seq<Tx>, ghost pools: seq<Senders>)
    requires pool.Valid()
    modifies pool`executables, pool`index, pool.gauge, pool.accounts.Values
    ensures pool.Valid()
    ensures transactions == Chosen(picked, answers) + if reward.Some? then [reward.value] else []
    ensures NonceOrdered(picked) && NonceOrdered(Chosen(picked, answers))
    ensures PassOf(pools, picked, gasLimit, answers) && pools[0] == old(pool.Abs()) && pools[|picked|] == pool.Abs()
    ensures AllAccounted(old(pool.Abs()), pool.Abs(), picked, Chosen(picked, answers))
    ensures full ==> answers(|picked|).GasLimitReached?
    ensures !full ==> Drained(pool.Abs())
  {
    ghost var p := pool.Abs();
    transactions, picked, pools := [], [], [p];
    pool.Prepare();
    ProgressStart(p);
    var step, status := 0, Going;
    while status.Going?
      invariant pool.Valid() && Standing(p, pool.Abs(), picked, transactions, answers, step, status)
      invariant Traced(pools, p, pool.Abs(), picked, gasLimit, answers)
      invariant status.Going? ==> HeadsOutside(pool.executables, pool.Abs(), {})
      decreases status.Going?, PromotedCount(pool.Abs())
    {
      status, step, transactions, picked, pools :=
        Advance(pool, gasLimit, answers, step, transactions, p, picked, pools);
    }
    full := status.Full?;
    if reward.Some? {
      transactions := transactions + [reward.value];
    }
  }

  ghost predicate Standing(p: Senders, p': Senders, picked: seq<Tx>, block: seq<Tx>,
                           answers: nat -> Answer, step: nat, status: Status) {
    && Progress(p, p', picked, block)
    && step == |picked| && block == Chosen(picked, answers)
    && (status.Empty? ==> Drained(p'))
    && (status.Full? ==> answers(step).GasLimitReached?)
  }

  ghost predicate Traced(pools: seq<Senders>, p: Senders, p': Senders, picked: seq<Tx>, gasLimit: nat,
                         answers: nat -> Answer)
  {
    PassOf(pools, picked, gasLimit, answers) && pools[0] == p && pools[|picked|] == p'
  }

  method Advance(pool: TxPool, gasLimit: nat, answers: nat -> Answer, step: nat, block: seq<Tx>,
                 ghost p: Senders, ghost picked: seq<Tx>, ghost pools: seq<Senders>)
    returns (status: Status, step': nat, block': seq<Tx>, ghost picked': seq<Tx>, ghost pools': seq<Senders>)
    requires pool.Valid() && HeadsOutside(pool.executables, pool.Abs(), {})
    requires Standing(p, pool.Abs(), picked, block, answers, step, Going)
    requires Traced(pools, p, pool.Abs(), picked, gasLimit, answers)
    modifies pool`executables, pool`index, pool.gauge, pool.accounts.Values
    ensures pool.Valid() && Standing(p, pool.Abs(), picked', block', answers, step', status)
    ensures Traced(pools', p, pool.Abs(), picked', gasLimit, answers)
    ensures status.Going? ==> HeadsOutside(pool.executables, pool.Abs(), {})
    ensures status.Going? ==> PromotedCount(pool.Abs()) < PromotedCount(old(pool.Abs()))
  {
    var tx;
    step', picked', pools' := step, picked, pools;
    status, tx, block' := Pick(pool, gasLimit, answers(step), block, p, picked);
    if tx.Some? {
      ChosenOneMore(picked, tx.value, answers);
      PassOneMore(pools, picked, gasLimit, answers, pool.Abs(), tx.value);
      picked', step', pools' := picked + [tx.value], step + 1, pools + [pool.Abs()];
    }
  }

  lemma ProgressStart(p: Senders)
    ensures Progress(p, p, [], [])
  {
    forall a | a in p ensures Accounted(p[a], p[a], [], [], a) {
    }
  }
}
