/** The transaction pool of txpool/txpool.go with the slot gauge of txpool/slot_gauge.go. Requests sent over
    channels are separate operations here, each done as one step. */
module TxPools {
  import opened Types
  import opened Heap
  import opened Words
  import opened Sums
  import opened Accounts

  const SLOT_SIZE := 32768

  /** The gas price as the price queue reads it: its low 64 bits. */
  function Price(t: Tx): nat {
    Wrap64(t.gasPrice)
  }

  predicate ByPrice(a: Tx, b: Tx) {
    Price(a) > Price(b)
  }

  lemma ByPriceIsOrder()
    ensures Order(ByPrice)
  {
  }

  // ----- Slots -----

  function SlotsOf(t: Tx): nat {
    (t.size + SLOT_SIZE - 1) / SLOT_SIZE
  }

  /** The slots of a transaction hold it, and one slot less does not. */
  lemma SlotsHold(t: Tx)
    ensures SlotsOf(t) * SLOT_SIZE >= t.size
    ensures SlotsOf(t) > 0 ==> (SlotsOf(t) - 1) * SLOT_SIZE < t.size
  {
  }

  ghost function SetSlots(m: multiset<Tx>): nat {
    if m == multiset{} then 0
    else
      var t :| t in m;
      SlotsOf(t) + SetSlots(m - multiset{t})
  }

  lemma {:induction false} SetSlotsWithout(m: multiset<Tx>, t: Tx)
    requires t in m
    ensures SetSlots(m) == SlotsOf(t) + SetSlots(m - multiset{t})
    decreases |m|
  {
    var u :| u in m && SetSlots(m) == SlotsOf(u) + SetSlots(m - multiset{u});
    if t != u {
      SetSlotsWithout(m - multiset{u}, t);
      SetSlotsWithout(m - multiset{t}, u);
      assert m - multiset{t} - multiset{u} == m - multiset{u} - multiset{t};
    }
  }

  lemma {:induction false} SetSlotsAdd(m: multiset<Tx>, n: multiset<Tx>)
    ensures SetSlots(m + n) == SetSlots(m) + SetSlots(n)
    decreases |n|
  {
    if n == multiset{} {
      assert m + n == m;
    } else {
      var t :| t in n;
      SetSlotsWithout(n, t);
      SetSlotsWithout(m + n, t);
      assert m + n - multiset{t} == m + (n - multiset{t});
      SetSlotsAdd(m, n - multiset{t});
    }
  }

  lemma SetSlotsOne(t: Tx)
    ensures SetSlots(multiset{t}) == SlotsOf(t)
  {
    SetSlotsWithout(multiset{t}, t);
    assert multiset{t} - multiset{t} == multiset{};
  }

  lemma SetSlotsPut(m: multiset<Tx>, t: Tx)
    ensures SetSlots(m + multiset{t}) == SetSlots(m) + SlotsOf(t)
  {
    SetSlotsAdd(m, multiset{t});
    SetSlotsOne(t);
  }

  lemma SlotsStep(m: multiset<Tx>, t: Tx, slots: nat)
    requires slots == Wrap64(SetSlots(m))
    ensures Wrap64(slots + SlotsOf(t)) == Wrap64(SetSlots(m + multiset{t}))
  {
    SetSlotsPut(m, t);
    WrapAdd(SetSlots(m), SlotsOf(t));
  }

  /** The slots of the transactions, as a 64-bit word. */
  method SlotsRequired(txs: seq<Tx>) returns (slots: nat)
    ensures slots == Wrap64(SetSlots(multiset(txs)))
  {
    slots := 0;
    for i := 0 to |txs|
      invariant slots == Wrap64(SetSlots(multiset(txs[..i])))
    {
      assert txs[..i + 1] == txs[..i] + [txs[i]];
      SlotsStep(multiset(txs[..i]), txs[i], slots);
      slots := Wrap64(slots + SlotsOf(txs[i]));
    }
    assert txs[..|txs|] == txs;
  }

  /** The slots in use, counted in a 64-bit word. */
  class SlotGauge {
    var height: nat
    /** What was counted in less what was counted out. */
    ghost var slots: int

    ghost predicate Valid()
      reads this
    {
      height == Wrap64(slots)
    }

    constructor ()
      ensures Valid() && slots == 0
    {
      height, slots := 0, 0;
    }

    method Increase(txs: seq<Tx>)
      requires Valid()
      modifies this
      ensures Valid() && slots == old(slots) + SetSlots(multiset(txs))
    {
      var word := SlotsRequired(txs);
      ghost var more := SetSlots(multiset(txs));
      WrapAdd(slots, word);
      WrapAddRight(slots, more);
      height := Wrap64(height + word);
      slots := slots + more;
    }

    /** Adding the complement is exact subtraction. */
    method Decrease(txs: seq<Tx>)
      requires Valid()
      modifies this
      ensures Valid() && slots == old(slots) - SetSlots(multiset(txs))
    {
      var word := SlotsRequired(txs);
      ghost var less := SetSlots(multiset(txs));
      ComplementSubtracts(height, word);
      WrapAdd(slots, -(word as int));
      WrapSub(slots, less);
      height := Wrap64(height + Complement(word as int - 1));
      slots := slots - less;
    }
  }

  /** The slots of everything a sender has in the pool. */
  ghost function QueueSlots(q: Queues): nat {
    SetSlots(multiset(q.enqueued)) + SetSlots(multiset(q.promoted))
  }

  type Senders = map<Address, Queues>

  ghost function SlotsBySender(p: Senders): map<Address, nat> {
    map a | a in p :: QueueSlots(p[a])
  }

  ghost function PoolSlots(p: Senders): nat {
    Sum(SlotsBySender(p))
  }

  lemma SlotsBySenderPut(p: Senders, a: Address, q: Queues)
    ensures SlotsBySender(p[a := q]) == SlotsBySender(p)[a := QueueSlots(q)]
  {
  }

  lemma PoolSlotsPut(p: Senders, a: Address, q: Queues)
    ensures PoolSlots(p[a := q]) == PoolSlots(p) + QueueSlots(q) - if a in p then QueueSlots(p[a]) else 0
  {
    SlotsBySenderPut(p, a, q);
    SumPut(SlotsBySender(p), a, QueueSlots(q));
  }

  // ----- Heads -----

  /** The transaction is the head of its sender's promoted queue. */
  ghost predicate IsHead(p: Senders, t: Tx) {
    t.from in p && p[t.from].promoted != [] && p[t.from].promoted[0] == t
  }

  /** The heads of the nonempty promoted queues, except for the senders in left. */
  ghost function Heads(p: Senders, left: set<Address>): set<Tx> {
    set a | a in p && a !in left && p[a].promoted != [] :: p[a].promoted[0]
  }

  /** The executables are exactly those heads, each once. */
  ghost predicate HeadsOutside(executables: seq<Tx>, p: Senders, left: set<Address>) {
    multiset(executables) == multiset(Heads(p, left))
  }

  ghost predicate OwnedBy(q: Queues, a: Address) {
    (forall t :: t in q.enqueued ==> t.from == a) && (forall t :: t in q.promoted ==> t.from == a)
  }

  /** Every sender's queues are valid and hold only its own transactions. */
  ghost predicate QueuesOk(p: Senders) {
    forall a {:trigger QueueOk(p[a], a)} :: a in p ==> QueueOk(p[a], a)
  }

  ghost predicate QueueOk(q: Queues, a: Address) {
    q.Valid() && OwnedBy(q, a)
  }

  class TxPool {
    var accounts: map<Address, Account>
    var executables: seq<Tx>
    var index: map<nat, Tx>
    const gauge: SlotGauge

    ghost function Abs(): Senders
      reads `accounts, accounts.Values
    {
      map a | a in accounts :: accounts[a].Q()
    }

    /** Each sender has an account object of its own. */
    ghost predicate Separate()
      reads `accounts
    {
      forall a, b :: a in accounts && b in accounts && accounts[a] == accounts[b] ==> a == b
    }

    /** The gauge shows the slots of everything in the pool. */
    ghost predicate Gauged()
      reads `accounts, accounts.Values, gauge
    {
      gauge.Valid() && gauge.slots == PoolSlots(Abs())
    }

    ghost predicate Valid()
      reads this, accounts.Values, gauge
    {
      Separate() && IsHeap(ByPrice, executables) && QueuesOk(Abs()) && Gauged()
    }

    constructor ()
      ensures Valid() && accounts == map[] && executables == [] && fresh(gauge)
    {
      accounts, executables, index := map[], [], map[];
      gauge := new SlotGauge();
      new;
      assert Abs() == map[] && SlotsBySender(Abs()) == map[];
    }

    method AddAccount(a: Address, nonce: nat)
      requires Separate() && a !in accounts
      modifies `accounts
      ensures Separate() && a in accounts && Abs() == old(Abs())[a := Queues([], [], nonce)]
    {
      var account := new Account(nonce);
      accounts := accounts[a := account];
      assert Abs() == old(Abs())[a := Queues([], [], nonce)];
    }

    /** The account of a sender, with the nonce in the state the first time. */
    method CreateAccountOnce(a: Address, nonce: nat)
      requires Valid()
      modifies `accounts
      ensures Valid() && a in accounts
      ensures a in old(accounts) ==> Abs() == old(Abs())
      ensures a !in old(accounts) ==> Abs() == old(Abs())[a := Queues([], [], nonce)]
    {
      if a !in accounts {
        PoolSlotsPut(Abs(), a, Queues([], [], nonce));
        AddAccount(a, nonce);
      }
    }

    method EnqueueOnly(tx: Tx) returns (ok: bool)
      requires Separate() && QueuesOk(Abs()) && tx.from in accounts
      modifies accounts[tx.from]
      ensures Abs() == old(Abs())[tx.from := Abs()[tx.from]]
      ensures Enqueued(old(Abs())[tx.from], Abs()[tx.from], tx, ok)
      ensures QueuesOk(Abs())
    {
      ghost var p := Abs();
      assert QueueOk(p[tx.from], tx.from);
      var account := accounts[tx.from];
      ok := account.Enqueue(tx);
      assert Abs() == p[tx.from := account.Q()];
      PushOwned(p[tx.from], account.Q(), tx.from, if ok then multiset{tx} else multiset{});
    }

    method EnqueueAndGauge(tx: Tx) returns (ok: bool)
      requires Separate() && QueuesOk(Abs()) && Gauged() && tx.from in accounts
      modifies gauge, accounts[tx.from]
      ensures QueuesOk(Abs()) && Gauged()
      ensures Abs() == old(Abs())[tx.from := Abs()[tx.from]]
      ensures Enqueued(old(Abs())[tx.from], Abs()[tx.from], tx, ok)
    {
      ok := EnqueueOnly(tx);
      EnqueueSlots(old(Abs()), Abs()[tx.from], tx, ok);
      if ok {
        TakeSlots(tx);
      }
    }

    method TakeSlots(tx: Tx)
      requires gauge.Valid()
      modifies gauge
      ensures Abs() == old(Abs())
      ensures gauge.Valid() && gauge.slots == old(gauge.slots) + SetSlots(multiset([tx]))
    {
      gauge.Increase([tx]);
    }

    /** Queues a transaction with a nonce that is not too low. Returns whether it was queued and whether the
        sender is due for promotion. */
    method HandleEnqueueRequest(tx: Tx) returns (ok: bool, due: bool)
      requires Valid() && tx.from in accounts
      modifies `index, gauge, accounts[tx.from]
      ensures Valid()
      ensures Abs() == old(Abs())[tx.from := Abs()[tx.from]]
      ensures Enqueued(old(Abs())[tx.from], Abs()[tx.from], tx, ok)
      ensures due <==> ok && tx.nonce == old(accounts[tx.from].nextNonce)
      ensures index == if ok then old(index)[tx.hash := tx] else old(index)
    {
      ok := EnqueueAndGauge(tx);
      assert accounts[tx.from].nextNonce == Abs()[tx.from].nextNonce;
      due := ok && tx.nonce <= accounts[tx.from].nextNonce;
      if ok {
        AddToIndex(tx);
      }
    }

    method AddToIndex(tx: Tx)
      modifies `index
      ensures Abs() == old(Abs()) && index == old(index)[tx.hash := tx]
    {
      index := index[tx.hash := tx];
    }

    method PromoteOnly(a: Address) returns (moved: seq<Tx>)
      requires Separate() && QueuesOk(Abs()) && a in accounts
      modifies accounts[a]
      ensures Abs() == old(Abs())[a := Abs()[a]]
      ensures Promoted(old(Abs())[a], Abs()[a], moved)
      ensures QueuesOk(Abs())
    {
      ghost var p := Abs();
      assert QueueOk(p[a], a);
      var account := accounts[a];
      moved := account.Promote();
      ghost var q := account.Q();
      assert Abs() == p[a := q];
      MoveOwned(p[a], q, a, moved);
    }

    /** Moves the transactions that are due from enqueued to promoted. */
    method HandlePromoteRequest(a: Address) returns (moved: seq<Tx>)
      requires Valid() && a in accounts
      modifies accounts[a]
      ensures Valid()
      ensures Abs() == old(Abs())[a := Abs()[a]]
      ensures Promoted(old(Abs())[a], Abs()[a], moved)
    {
      moved := PromoteOnly(a);
      PromoteSlots(old(Abs()), a, Abs()[a], moved);
    }

    method ResetOnly(a: Address, nonce: nat) returns (pruned: seq<Tx>, removed: seq<Tx>, due: bool)
      requires Separate() && QueuesOk(Abs()) && a in accounts
      modifies accounts[a]
      ensures Abs() == old(Abs())[a := Abs()[a]]
      ensures WasReset(old(Abs())[a], Abs()[a], nonce, pruned, removed)
      ensures due <==> nonce > old(Abs())[a].nextNonce && HasNonce(multiset(Abs()[a].enqueued), nonce)
      ensures QueuesOk(Abs())
    {
      ghost var p := Abs();
      assert QueueOk(p[a], a);
      var account := accounts[a];
      pruned, removed, due := account.Reset(nonce);
      assert Abs() == p[a := account.Q()];
      Subqueue(p[a].promoted, account.promoted, multiset(pruned));
      Subqueue(p[a].enqueued, account.enqueued, multiset(removed));
    }

    /** Prunes what the state has passed; returns whether the sender is due for promotion. */
    method ResetAccount(a: Address, nonce: nat) returns (due: bool, pruned: seq<Tx>, removed: seq<Tx>)
      requires Valid() && a in accounts
      modifies `index, gauge, accounts[a]
      ensures Valid()
      ensures Abs() == old(Abs())[a := Abs()[a]]
      ensures WasReset(old(Abs())[a], Abs()[a], nonce, pruned, removed)
      ensures due <==> nonce > old(Abs())[a].nextNonce && HasNonce(multiset(Abs()[a].enqueued), nonce)
      ensures index == old(index) - Hashes(pruned) - Hashes(removed)
    {
      pruned, removed, due := ResetOnly(a, nonce);
      ghost var p := Abs();
      ResetSlots(old(Abs()), a, p[a], nonce, pruned, removed);
      ReleaseBoth(pruned, removed);
    }

    method ReleaseBoth(txs: seq<Tx>, more: seq<Tx>)
      requires gauge.Valid()
      modifies `index, gauge
      ensures Abs() == old(Abs())
      ensures gauge.Valid() && gauge.slots == old(gauge.slots) - SetSlots(multiset(txs)) - SetSlots(multiset(more))
      ensures index == old(index) - Hashes(txs) - Hashes(more)
    {
      Release(txs);
      Release(more);
    }

    /** Frees the slots of transactions that left the queues and forgets them. */
    method Release(txs: seq<Tx>)
      requires gauge.Valid()
      modifies `index, gauge
      ensures Abs() == old(Abs())
      ensures gauge.Valid() && gauge.slots == old(gauge.slots) - SetSlots(multiset(txs))
      ensures index == old(index) - Hashes(txs)
    {
      RemoveFromIndex(txs);
      gauge.Decrease(txs);
    }

    method RemoveFromIndex(txs: seq<Tx>)
      modifies `index
      ensures index == old(index) - Hashes(txs)
    {
      for i := 0 to |txs|
        invariant index == old(index) - Hashes(txs[..i])
      {
        HashesAppend(txs[..i], txs[i]);
        assert txs[..i + 1] == txs[..i] + [txs[i]];
        index := index - {txs[i].hash};
      }
      assert txs[..|txs|] == txs;
    }

    // ----- Building a block -----

    /** The head of every promoted queue. */
    method GetPrimaries() returns (primaries: seq<Tx>)
      requires QueuesOk(Abs())
      ensures HeadsOutside(primaries, Abs(), {})
    {
      primaries := [];
      var left := accounts.Keys;
      while left != {}
        invariant left <= accounts.Keys
        invariant HeadsOutside(primaries, Abs(), left)
      {
        var a :| a in left;
        assert QueueOk(Abs()[a], a);
        if accounts[a].promoted != [] {
          AddHead(primaries, primaries + [accounts[a].promoted[0]], Abs(), left, a);
          primaries := primaries + [accounts[a].promoted[0]];
        } else {
          NoHead(primaries, Abs(), left, a);
        }
        left := left - {a};
      }
    }

    /** Fills the price queue with the head of every promoted queue. */
    method Prepare()
      requires Valid()
      modifies `executables
      ensures Valid() && Abs() == old(Abs()) && HeadsOutside(executables, Abs(), {})
    {
      var queue := PricedHeads();
      SetExecutables(queue);
    }

    method PricedHeads() returns (queue: seq<Tx>)
      requires QueuesOk(Abs())
      ensures IsHeap(ByPrice, queue) && HeadsOutside(queue, Abs(), {})
    {
      var primaries := GetPrimaries();
      queue := PushAll(primaries);
    }

    method SetExecutables(queue: seq<Tx>)
      requires IsHeap(ByPrice, queue)
      modifies `executables
      ensures Abs() == old(Abs()) && executables == queue
    {
      ghost var p := Abs();
      executables := queue;
      assert Abs() == p;
    }

    /** Takes a best-priced transaction off the price queue. During a pass, when the queue holds the heads, that is
        a best-priced head, and the queue then covers every sender but its own. */
    method Peek() returns (tx: Option<Tx>)
      requires Valid()
      modifies `executables
      ensures Valid() && Abs() == old(Abs())
      ensures TookBest(old(executables), executables, tx)
      ensures old(HeadsOutside(executables, Abs(), {})) ==> BestHead(old(Abs()), tx)
      ensures old(HeadsOutside(executables, Abs(), {})) ==>
        HeadsOutside(executables, Abs(), if tx.Some? then {tx.value.from} else {})
    {
      var queue;
      tx, queue := PopBest(executables, Abs());
      SetExecutables(queue);
    }

    method PopOnly(a: Address)
      requires Separate() && QueuesOk(Abs()) && a in accounts
      modifies accounts[a]
      ensures Abs() == old(Abs())[a := Abs()[a]]
      ensures PoppedAny(old(Abs())[a], Abs()[a])
      ensures QueuesOk(Abs())
    {
      ghost var p := Abs();
      assert QueueOk(p[a], a);
      var account := accounts[a];
      if account.promoted != [] {
        var tx := account.PopPromoted();
        Subqueue(p[a].promoted, account.promoted, multiset{tx});
      }
      assert Abs() == p[a := account.Q()];
    }

    /** Takes the lowest promoted nonce of the sender, frees the slots of the transaction it is given and puts the
        sender's next head into the price queue. The gauge stays right exactly when what was taken needs as many
        slots as what was given; during a pass the given transaction is the head, and the queue then holds
        the heads again. */
    method Pop(tx: Tx)
      requires Valid() && tx.from in accounts
      modifies `executables, gauge, accounts[tx.from]
      ensures Separate() && QueuesOk(Abs()) && IsHeap(ByPrice, executables)
      ensures Abs() == old(Abs())[tx.from := Abs()[tx.from]]
      ensures PoppedAny(old(Abs())[tx.from], Abs()[tx.from])
      ensures multiset(executables) == multiset(old(executables)) + HeadOf(Abs()[tx.from])
      ensures Valid() <==> SetSlots(HeadOf(old(Abs())[tx.from])) == SetSlots(multiset([tx]))
      ensures old(IsHead(Abs(), tx)) ==> Valid() && Popped(old(Abs())[tx.from], Abs()[tx.from], tx)
      ensures old(IsHead(Abs(), tx) && HeadsOutside(executables, Abs(), {tx.from})) ==>
        HeadsOutside(executables, Abs(), {})
    {
      ghost var p := Abs();
      PopAndGauge(tx);
      PushNextHead(tx.from, p);
      if IsHead(p, tx) {
        HeadOfTx(p[tx.from], tx);
      }
    }

    /** The next head of the sender joins the price queue. */
    method PushNextHead(a: Address, ghost p: Senders)
      requires IsHeap(ByPrice, executables) && QueuesOk(Abs()) && a in accounts && a in p && Abs() == p[a := Abs()[a]]
      modifies `executables
      ensures IsHeap(ByPrice, executables) && Abs() == old(Abs())
      ensures multiset(executables) == multiset(old(executables)) + HeadOf(Abs()[a])
      ensures HeadsOutside(old(executables), p, {a}) ==> HeadsOutside(executables, Abs(), {})
    {
      ghost var p' := Abs();
      var queue := PushHead(executables, accounts[a].promoted, p, p', a);
      SetExecutables(queue);
    }

    method PopAndGauge(tx: Tx)
      requires Separate() && QueuesOk(Abs()) && Gauged() && tx.from in accounts
      modifies gauge, accounts[tx.from]
      ensures QueuesOk(Abs()) && Abs() == old(Abs())[tx.from := Abs()[tx.from]]
      ensures PoppedAny(old(Abs())[tx.from], Abs()[tx.from])
      ensures Gauged() <==> SetSlots(HeadOf(old(Abs())[tx.from])) == SetSlots(multiset([tx]))
    {
      PopOnly(tx.from);
      ghost var p := Abs();
      PopSlots(old(Abs()), p[tx.from], tx.from);
      FreeSlots(tx, p, SetSlots(HeadOf(old(Abs())[tx.from])));
    }

    /** Frees the slots of a transaction when the pool needs `less` slots than the gauge shows. */
    method FreeSlots(tx: Tx, ghost p: Senders, ghost less: nat)
      requires gauge.Valid() && Abs() == p && PoolSlots(p) == gauge.slots - less
      modifies gauge
      ensures Abs() == p && (Gauged() <==> less == SetSlots(multiset([tx])))
    {
      gauge.Decrease([tx]);
    }

    /** Clears the sender of the transaction and rolls its next nonce back to it. If the price queue covered the
        other senders, it holds the heads again. */
    method Drop(tx: Tx)
      requires Valid() && tx.from in accounts
      modifies `index, gauge, accounts[tx.from]
      ensures Valid()
      ensures Abs() == old(Abs())[tx.from := Queues([], [], tx.nonce)]
      ensures var q := old(Abs())[tx.from]; index == old(index) - Hashes(q.promoted) - Hashes(q.enqueued)
      ensures old(HeadsOutside(executables, Abs(), {tx.from})) ==> HeadsOutside(executables, Abs(), {})
    {
      ghost var p := Abs()[tx.from := Queues([], [], tx.nonce)];
      DropAndGauge(tx);
      if HeadsOutside(executables, old(Abs()), {tx.from}) {
        HeadsElsewhere(executables, old(Abs()), p, tx.from);
        NoHead(executables, p, {tx.from}, tx.from);
        assert {tx.from} - {tx.from} == {};
      }
      assert Abs() == p;
    }

    method DropAndGauge(tx: Tx)
      requires Separate() && QueuesOk(Abs()) && Gauged() && tx.from in accounts
      modifies `index, gauge, accounts[tx.from]
      ensures QueuesOk(Abs()) && Gauged()
      ensures Abs() == old(Abs())[tx.from := Queues([], [], tx.nonce)]
      ensures var q := old(Abs())[tx.from]; index == old(index) - Hashes(q.promoted) - Hashes(q.enqueued)
    {
      var dropped, removed := DropOnly(tx);
      ghost var p := Abs();
      DropSlots(old(Abs()), tx.from, tx.nonce);
      ReleaseBoth(dropped, removed);
    }

    method DropOnly(tx: Tx) returns (dropped: seq<Tx>, removed: seq<Tx>)
      requires Separate() && QueuesOk(Abs()) && tx.from in accounts
      modifies accounts[tx.from]
      ensures Abs() == old(Abs())[tx.from := Queues([], [], tx.nonce)] && QueuesOk(Abs())
      ensures dropped == old(Abs())[tx.from].promoted && removed == old(Abs())[tx.from].enqueued
    {
      var account := accounts[tx.from];
      dropped, removed := account.Clear(tx.nonce);
      assert Abs() == old(Abs())[tx.from := account.Q()];
    }
  }

  ghost predicate Popped(q: Queues, q': Queues, tx: Tx) {
    && q.promoted != [] && tx == q.promoted[0]
    && q'.enqueued == q.enqueued && q'.nextNonce == q.nextNonce
    && multiset(q.promoted) == multiset(q'.promoted) + multiset{tx}
    && AtLeast(q'.promoted, tx.nonce)
    && (q.GapFree() ==> q'.GapFree())
  }

  /** The head of the promoted queue, if there is one. */
  function HeadOf(q: Queues): multiset<Tx> {
    if q.promoted == [] then multiset{} else multiset{q.promoted[0]}
  }

  /** The head is taken, if there is one. */
  ghost predicate PoppedAny(q: Queues, q': Queues) {
    if q.promoted == [] then q' == q else Popped(q, q', q.promoted[0])
  }

  lemma HeadOfTx(q: Queues, tx: Tx)
    requires q.promoted != [] && q.promoted[0] == tx
    ensures HeadOf(q) == multiset([tx])
  {
  }

  lemma PopSlots(p: Senders, q: Queues, a: Address)
    requires a in p && PoppedAny(p[a], q)
    ensures PoolSlots(p[a := q]) == PoolSlots(p) - SetSlots(HeadOf(p[a]))
  {
    SetSlotsAdd(multiset(q.promoted), HeadOf(p[a]));
    PoolSlotsPut(p, a, q);
    assert p[a].promoted == [] ==> multiset(q.promoted) + HeadOf(p[a]) == multiset(q.promoted);
  }

  lemma DropSlots(p: Senders, a: Address, nonce: nat)
    requires a in p
    ensures PoolSlots(p[a := Queues([], [], nonce)]) == PoolSlots(p) - QueueSlots(p[a])
  {
    PoolSlotsPut(p, a, Queues([], [], nonce));
  }

  /** Changing one sender's queues leaves the heads of the others. */
  lemma HeadsElsewhere(s: seq<Tx>, p: Senders, p': Senders, a: Address)
    requires a in p && a in p' && p' == p[a := p'[a]] && HeadsOutside(s, p, {a})
    ensures HeadsOutside(s, p', {a})
  {
    assert Heads(p', {a}) == Heads(p, {a});
  }

  ghost function Hashes(txs: seq<Tx>): set<nat> {
    set t | t in txs :: t.hash
  }

  lemma HashesAppend(txs: seq<Tx>, t: Tx)
    ensures Hashes(txs + [t]) == Hashes(txs) + {t.hash}
  {
    assert forall u :: u in txs + [t] <==> u in txs || u == t;
  }

  /** No promoted transaction is left. */
  ghost predicate Drained(p: Senders) {
    forall a :: a in p ==> p[a].promoted == []
  }

  lemma NoHeads(p: Senders)
    requires HeadsOutside([], p, {})
    ensures Drained(p)
  {
    forall a | a in p ensures p[a].promoted == [] {
      HeadsOfOne(p, a);
    }
  }

  lemma HeadsOfOne(p: Senders, a: Address)
    requires a in p
    ensures p[a].promoted != [] ==> Heads(p, {}) != {} && multiset(Heads(p, {})) != multiset{}
  {
    if p[a].promoted != [] {
      assert p[a].promoted[0] in Heads(p, {});
      assert p[a].promoted[0] in multiset(Heads(p, {}));
    }
  }

  lemma TakeHead(s: seq<Tx>, r: seq<Tx>, p: Senders, best: Tx)
    requires HeadsOutside(s, p, {}) && multiset(s) == multiset(r) + multiset{best}
    requires QueuesOk(p) && forall t :: t in s ==> Price(t) <= Price(best)
    ensures HeadsOutside(r, p, {best.from}) && IsHead(p, best) && !Drained(p)
    ensures forall t :: IsHead(p, t) ==> Price(t) <= Price(best)
  {
    assert best in multiset(s);
    HeadOfSender(p, {}, best);
    WithoutHead(p, best);
    forall t | IsHead(p, t) ensures Price(t) <= Price(best) {
      HeadOfSender(p, {}, t);
      assert t in multiset(s);
      assert t in s;
    }
  }

  lemma WithoutHead(p: Senders, best: Tx)
    requires QueuesOk(p) && IsHead(p, best)
    ensures best in Heads(p, {}) && Heads(p, {best.from}) == Heads(p, {}) - {best}
    ensures multiset(Heads(p, {best.from})) == multiset(Heads(p, {})) - multiset{best}
  {
    HeadOfSender(p, {}, best);
    forall t ensures t in Heads(p, {best.from}) <==> t in Heads(p, {}) - {best} {
      HeadOfSender(p, {}, t);
      HeadOfSender(p, {best.from}, t);
    }
  }

  /** A head of the highest price, or none exactly when there is none. */
  ghost predicate BestHead(p: Senders, tx: Option<Tx>) {
    && (tx.None? <==> Drained(p))
    && (tx.Some? ==> IsHead(p, tx.value) && forall t :: IsHead(p, t) ==> Price(t) <= Price(tx.value))
  }

  /** The best head offers the highest gas price on all pools exactly as long as prices fit in 64 bits. */
  ghost predicate Dearest(p: Senders, tx: Tx) {
    forall t :: IsHead(p, t) ==> t.gasPrice <= tx.gasPrice
  }

  lemma BestIsDearest(p: Senders, tx: Tx)
    requires BestHead(p, Some(tx)) && forall t :: IsHead(p, t) ==> t.gasPrice < TWO64
    ensures Dearest(p, tx)
  {
    forall t | IsHead(p, t) ensures t.gasPrice <= tx.gasPrice {
      WrapFits(t.gasPrice);
      WrapFits(tx.gasPrice);
      assert Price(t) <= Price(tx);
    }
  }

  lemma WrapFits(x: nat)
    requires x < TWO64
    ensures Wrap64(x) == x
  {
  }

  /** A price of 2^64 counts as 0: a pool in which the best head is not the dearest. */
  lemma WrappedPriceLoses(tx: Tx) returns (p: Senders, dear: Tx)
    requires 0 < tx.gasPrice < TWO64
    ensures BestHead(p, Some(tx)) && IsHead(p, dear) && dear.gasPrice == TWO64 > tx.gasPrice && !Dearest(p, tx)
  {
    dear := tx.(from := tx.from + 1, gasPrice := TWO64);
    p := map[tx.from := Queues([], [tx], tx.nonce + 1), dear.from := Queues([], [dear], dear.nonce + 1)];
    WrapFits(tx.gasPrice);
    assert Price(dear) == 0;
    assert IsHead(p, tx) && IsHead(p, dear);
  }

  lemma TakeBest(s: seq<Tx>, r: seq<Tx>, p: Senders, tx: Option<Tx>)
    requires HeadsOutside(s, p, {}) && QueuesOk(p) && TookBest(s, r, tx)
    ensures BestHead(p, tx) && HeadsOutside(r, p, if tx.Some? then {tx.value.from} else {})
  {
    if tx.None? {
      NoHeads(p);
    } else {
      TakeHead(s, r, p, tx.value);
    }
  }

  /** A best-priced transaction and the others. */
  method PopBest(executables: seq<Tx>, ghost p: Senders) returns (best: Option<Tx>, queue: seq<Tx>)
    requires IsHeap(ByPrice, executables) && QueuesOk(p)
    ensures IsHeap(ByPrice, queue) && TookBest(executables, queue, best)
    ensures HeadsOutside(executables, p, {}) ==> BestHead(p, best)
    ensures HeadsOutside(executables, p, {}) ==> HeadsOutside(queue, p, if best.Some? then {best.value.from} else {})
  {
    if executables == [] {
      best, queue := None, [];
    } else {
      ByPriceIsOrder();
      var tx;
      tx, queue := Heap.Pop(executables, ByPrice);
      best := Some(tx);
    }
    if HeadsOutside(executables, p, {}) {
      TakeBest(executables, queue, p, best);
    }
  }

  /** A transaction of the highest price is taken off, unless there is none. */
  ghost predicate TookBest(s: seq<Tx>, r: seq<Tx>, best: Option<Tx>) {
    if best.None? then s == [] == r
    else multiset(s) == multiset(r) + multiset{best.value} && forall t :: t in s ==> Price(t) <= Price(best.value)
  }

  /** The price queue with the head of a promoted queue, if it has one. */
  method PushHead(executables: seq<Tx>, promoted: seq<Tx>, ghost p: Senders, ghost p': Senders, ghost a: Address)
    returns (queue: seq<Tx>)
    requires IsHeap(ByPrice, executables) && QueuesOk(p')
    requires a in p && a in p' && p' == p[a := p'[a]] && p'[a].promoted == promoted
    ensures IsHeap(ByPrice, queue) && multiset(queue) == multiset(executables) + HeadOf(p'[a])
    ensures HeadsOutside(executables, p, {a}) ==> HeadsOutside(queue, p', {})
  {
    queue := executables;
    if promoted != [] {
      ByPriceIsOrder();
      queue := Push(executables, promoted[0], ByPrice);
    }
    if HeadsOutside(executables, p, {a}) {
      HeadsElsewhere(executables, p, p', a);
      JoinHead(executables, queue, p', a);
    }
  }

  lemma JoinHead(s: seq<Tx>, r: seq<Tx>, p: Senders, a: Address)
    requires QueuesOk(p) && HeadsOutside(s, p, {a}) && a in p && multiset(r) == multiset(s) + HeadOf(p[a])
    ensures HeadsOutside(r, p, {})
  {
    assert {a} - {a} == {};
    if p[a].promoted == [] {
      NoHead(s, p, {a}, a);
    } else {
      AddHead(s, r, p, {a}, a);
    }
  }

  /** Pushes transactions onto an empty price queue. */
  method PushAll(txs: seq<Tx>) returns (queue: seq<Tx>)
    ensures IsHeap(ByPrice, queue) && multiset(queue) == multiset(txs)
  {
    ByPriceIsOrder();
    queue := [];
    for i := 0 to |txs|
      invariant IsHeap(ByPrice, queue) && multiset(queue) == multiset(txs[..i])
    {
      assert txs[..i + 1] == txs[..i] + [txs[i]];
      queue := Push(queue, txs[i], ByPrice);
    }
    assert txs[..|txs|] == txs;
  }

  /** A head among others is known by its sender. */
  lemma HeadOfSender(p: Senders, left: set<Address>, t: Tx)
    requires QueuesOk(p)
    ensures t in Heads(p, left) <==> IsHead(p, t) && t.from !in left
  {
    if t in Heads(p, left) {
      var a :| a in p && a !in left && p[a].promoted != [] && p[a].promoted[0] == t;
      assert QueueOk(p[a], a) && t in p[a].promoted;
    }
  }

  lemma AddHead(s: seq<Tx>, r: seq<Tx>, p: Senders, left: set<Address>, a: Address)
    requires QueuesOk(p) && a in p && a in left && p[a].promoted != []
    requires HeadsOutside(s, p, left) && multiset(r) == multiset(s) + multiset{p[a].promoted[0]}
    ensures HeadsOutside(r, p, left - {a})
  {
    var head := p[a].promoted[0];
    assert QueueOk(p[a], a) && head in p[a].promoted;
    forall t ensures t in Heads(p, left - {a}) <==> t in Heads(p, left) || t == head {
      HeadOfSender(p, left, t);
      HeadOfSender(p, left - {a}, t);
    }
    assert Heads(p, left - {a}) == Heads(p, left) + {head};
    HeadOfSender(p, left, head);
  }

  lemma NoHead(s: seq<Tx>, p: Senders, left: set<Address>, a: Address)
    requires a in p && a in left && p[a].promoted == [] && HeadsOutside(s, p, left)
    ensures HeadsOutside(s, p, left - {a})
  {
    assert Heads(p, left - {a}) == Heads(p, left);
  }

  /** A promotion: the run of consecutive nonces at the head of the enqueued queue, if it starts no later than
      the next nonce, changes queues. */
  ghost predicate Promoted(q: Queues, q': Queues, moved: seq<Tx>) {
    && multiset(q.enqueued) == multiset(q'.enqueued) + multiset(moved)
    && multiset(q'.promoted) == multiset(q.promoted) + multiset(moved)
    && (moved == [] <==> q.enqueued == [] || q.enqueued[0].nonce > q.nextNonce)
    && (moved == [] ==> q'.nextNonce == q.nextNonce)
    && (moved != [] ==>
          var end := q.enqueued[0].nonce + |moved|;
          && Consecutive(moved, q.enqueued[0].nonce)
          && q'.nextNonce == (if q.nextNonce < end then end else q.nextNonce)
          && (q'.enqueued == [] || q'.enqueued[0].nonce != end))
    && (q.GapFree() ==> q'.GapFree() && !HasNonce(multiset(q'.enqueued), q'.nextNonce))
  }

  ghost predicate WasReset(q: Queues, q': Queues, nonce: nat, pruned: seq<Tx>, removed: seq<Tx>) {
    && multiset(q.promoted) == multiset(q'.promoted) + multiset(pruned)
    && multiset(q.enqueued) == multiset(q'.enqueued) + multiset(removed)
    && Below(pruned, nonce) && AtLeast(q'.promoted, nonce) && Below(removed, nonce)
    && q'.nextNonce == (if nonce <= q.nextNonce then q.nextNonce else nonce)
    && (nonce > q.nextNonce ==> AtLeast(q'.enqueued, nonce))
    && (nonce <= q.nextNonce ==> q'.enqueued == q.enqueued)
    && (q.GapFree() ==> q'.GapFree())
  }

  lemma MoveOwned(q: Queues, q': Queues, a: Address, moved: seq<Tx>)
    requires OwnedBy(q, a) && multiset(q.enqueued) == multiset(q'.enqueued) + multiset(moved)
    requires multiset(q'.promoted) == multiset(q.promoted) + multiset(moved)
    ensures OwnedBy(q', a)
  {
    Subqueue(q.enqueued, q'.enqueued, multiset(moved));
    forall t | t in q'.promoted ensures t.from == a {
      assert t in multiset(q'.promoted);
      if t !in q.promoted {
        assert t in multiset(moved);
        assert t in multiset(q.enqueued);
      }
    }
  }

  lemma PromoteSlots(p: Senders, a: Address, q: Queues, moved: seq<Tx>)
    requires a in p && Promoted(p[a], q, moved)
    ensures PoolSlots(p[a := q]) == PoolSlots(p)
  {
    SetSlotsAdd(multiset(q.enqueued), multiset(moved));
    SetSlotsAdd(multiset(p[a].promoted), multiset(moved));
    PoolSlotsPut(p, a, q);
  }

  lemma ResetSlots(p: Senders, a: Address, q: Queues, nonce: nat, pruned: seq<Tx>, removed: seq<Tx>)
    requires a in p && WasReset(p[a], q, nonce, pruned, removed)
    ensures PoolSlots(p[a := q]) == PoolSlots(p) - SetSlots(multiset(pruned)) - SetSlots(multiset(removed))
  {
    SetSlotsAdd(multiset(q.enqueued), multiset(removed));
    SetSlotsAdd(multiset(q.promoted), multiset(pruned));
    PoolSlotsPut(p, a, q);
  }

  ghost predicate Enqueued(q: Queues, q': Queues, tx: Tx, ok: bool) {
    && (ok <==> tx.nonce >= q.nextNonce)
    && q'.promoted == q.promoted && q'.nextNonce == q.nextNonce
    && multiset(q'.enqueued) == multiset(q.enqueued) + (if ok then multiset{tx} else multiset{})
    && (q.GapFree() ==> (q'.GapFree() <==> !ok || !HasNonce(multiset(q.enqueued), tx.nonce)))
  }

  lemma PushOwned(q: Queues, q': Queues, a: Address, added: multiset<Tx>)
    requires OwnedBy(q, a) && q'.promoted == q.promoted && multiset(q'.enqueued) == multiset(q.enqueued) + added
    requires forall t :: t in added ==> t.from == a
    ensures OwnedBy(q', a)
  {
    forall t | t in q'.enqueued ensures t.from == a {
      assert t in multiset(q'.enqueued);
      assert t in added || t in multiset(q.enqueued);
    }
  }

  lemma EnqueueSlots(p: Senders, q: Queues, tx: Tx, ok: bool)
    requires tx.from in p && Enqueued(p[tx.from], q, tx, ok)
    ensures PoolSlots(p[tx.from := q]) == PoolSlots(p) + if ok then SetSlots(multiset([tx])) else 0
  {
    assert multiset([tx]) == multiset{tx};
    SetSlotsAdd(multiset(p[tx.from].enqueued), if ok then multiset{tx} else multiset{});
    PoolSlotsPut(p, tx.from, q);
  }
}
