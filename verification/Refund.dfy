/** The refund counter of SetStorage in state/txn.go: the rules of EIP-1283 and EIP-2200, and the ones before. */
module Refund {
  import opened Types
  import opened Journal
  import opened Sums
  import Quorum

  datatype Forks = Forks(constantinople: bool, petersburg: bool, istanbul: bool) {
    predicate Legacy() {
      !istanbul && (petersburg || !constantinople)
    }
  }

  datatype StorageStatus = Unchanged | Added | Deleted | Modified | ModifiedAgain

  const CLEAR := 15000

  function Read(m: map<Slot, Word>, k: Slot): Word {
    if k in m then m[k] else 0
  }

  function Status(original: Word, current: Word, value: Word, forks: Forks): StorageStatus {
    if current == value then Unchanged
    else if !forks.Legacy() && original != current then ModifiedAgain
    else if current == 0 then Added
    else if value == 0 then Deleted
    else Modified
  }

  /** Does the call take back a refund? */
  predicate Subtracts(original: Word, current: Word, value: Word, forks: Forks) {
    !forks.Legacy() && value != 0 && original != 0 && current == 0
  }

  /** What the call adds to the counter, beside what it takes back. */
  function Bonus(original: Word, current: Word, value: Word, forks: Forks): nat {
    if current == value then 0
    else if forks.Legacy() then if value == 0 then CLEAR else 0
    else if original == current then if value == 0 then CLEAR else 0
    else if original == 0 then
      if value == 0 then if forks.istanbul then 19200 else 19800 else 0
    else
      (if value == 0 then CLEAR else 0)
      + if value == original then if forks.istanbul then 4200 else 4800 else 0
  }

  function Storage(w: World, a: Address, k: Slot): Word {
    Read(EntryOrNew(w, a).storage, k)
  }

  function Original(w: World, a: Address, k: Slot): Word {
    Read(EntryOrNew(w, a).committed, k)
  }

  /** The change of the counter by one call. */
  function Delta(original: Word, current: Word, value: Word, forks: Forks): int {
    Bonus(original, current, value, forks) - if Subtracts(original, current, value, forks) then CLEAR else 0
  }

  function Change(w: World, a: Address, k: Slot, value: Word, forks: Forks): int {
    Delta(Original(w, a, k), Storage(w, a, k), value, forks)
  }

  function SetStorage(w: World, a: Address, k: Slot, value: Word, forks: Forks): World {
    if Storage(w, a, k) == value then w
    else ApplyWorld(w, SetState(a, k, value)).(refund := w.refund + Change(w, a, k, value, forks))
  }

  // ----- What storage writes cost in the end -----

  /** What opSStore charges for a write of that status (tievm/evm/execute/instructions.go). */
  function Charge(status: StorageStatus, forks: Forks): nat {
    match status
    case Unchanged => if forks.istanbul then 800 else if forks.Legacy() then 5000 else 200
    case Modified => 5000
    case ModifiedAgain => if forks.istanbul then 800 else if forks.Legacy() then 5000 else 200
    case Added => 20000
    case Deleted => 5000
  }

  /** The price of touching a slot: of a load by EIP-2200 and EIP-1283, and of a reset before. */
  function Touch(forks: Forks): nat {
    if forks.Legacy() then 5000 else if forks.istanbul then 800 else 200
  }

  /** What a slot that ends at x costs beyond that, given its value before the transaction: 20000 to fill an empty one,
      5000 to change another, 15000 back for emptying it, and nothing if the value is as before. Before the net
      rules only whether it ends filled matters. */
  function Worth(original: Word, x: Word, forks: Forks): int {
    if forks.Legacy() then if x == 0 then 0 else 15000
    else if x == original then 0
    else if original == 0 then 20000 - Touch(forks)
    else 5000 - Touch(forks) - if x == 0 then 15000 else 0
  }

  datatype SlotWrite = SlotWrite(a: Address, k: Slot, value: Word)

  function AfterWrites(w: World, writes: seq<SlotWrite>, forks: Forks): World {
    if writes == [] then w
    else
      var before, x := AfterWrites(w, writes[..|writes| - 1], forks), writes[|writes| - 1];
      SetStorage(before, x.a, x.k, x.value, forks)
  }

  function Charged(w: World, writes: seq<SlotWrite>, forks: Forks): nat {
    if writes == [] then 0
    else
      var n := |writes| - 1;
      var before, x := AfterWrites(w, writes[..n], forks), writes[n];
      Charged(w, writes[..n], forks)
      + Charge(Status(Original(before, x.a, x.k), Storage(before, x.a, x.k), x.value, forks), forks)
  }

  /** The worth of several slots. */
  function SlotsWorth(w: World, slots: seq<(Address, Slot)>, forks: Forks): int {
    if slots == [] then 0
    else
      var n := |slots| - 1;
      var (a, k) := slots[n];
      SlotsWorth(w, slots[..n], forks) + Worth(Original(w, a, k), Storage(w, a, k), forks)
  }

  lemma WriteReads(w: World, a: Address, k: Slot, value: Word, forks: Forks, b: Address, j: Slot)
    ensures var w' := SetStorage(w, a, k, value, forks);
      && Original(w', b, j) == Original(w, b, j)
      && Storage(w', b, j) == if (b, j) == (a, k) then value else Storage(w, b, j)
  {
  }

  /** The charge for one write, less what it adds to the counter. */
  lemma WriteCosts(original: Word, current: Word, value: Word, forks: Forks)
    ensures Charge(Status(original, current, value, forks), forks) - Delta(original, current, value, forks)
         == Touch(forks) + Worth(original, value, forks) - Worth(original, current, forks)
  {
  }

  /** The status tells what the counter gains, unless the slot had been written before by the net rules. */
  lemma StatusTells(original: Word, current: Word, value: Word, forks: Forks)
    ensures var status, delta := Status(original, current, value, forks), Delta(original, current, value, forks);
      && (status.Deleted? ==> delta == CLEAR)
      && (status.Unchanged? || status.Added? || status.Modified? ==> delta == 0)
      && (status.ModifiedAgain? ==> !forks.Legacy() && original != current)
  {
  }

  lemma {:induction false} SlotsWorthOther(w: World, x: SlotWrite, slots: seq<(Address, Slot)>, forks: Forks)
    requires (x.a, x.k) !in slots
    ensures SlotsWorth(SetStorage(w, x.a, x.k, x.value, forks), slots, forks) == SlotsWorth(w, slots, forks)
  {
    if slots != [] {
      var n := |slots| - 1;
      SlotsWorthOther(w, x, slots[..n], forks);
      WriteReads(w, x.a, x.k, x.value, forks, slots[n].0, slots[n].1);
    }
  }

  lemma {:induction false} SlotsWorthStep(w: World, x: SlotWrite, slots: seq<(Address, Slot)>, forks: Forks)
    requires Quorum.Distinct(slots) && (x.a, x.k) in slots
    ensures SlotsWorth(SetStorage(w, x.a, x.k, x.value, forks), slots, forks) - SlotsWorth(w, slots, forks)
         == Worth(Original(w, x.a, x.k), x.value, forks) - Worth(Original(w, x.a, x.k), Storage(w, x.a, x.k), forks)
  {
    var n := |slots| - 1;
    WriteReads(w, x.a, x.k, x.value, forks, slots[n].0, slots[n].1);
    if slots[n] == (x.a, x.k) {
      SlotsWorthOther(w, x, slots[..n], forks);
    } else {
      SlotsWorthStep(w, x, slots[..n], forks);
    }
  }

  function Paid(w: World, x: SlotWrite, forks: Forks): int {
    Charge(Status(Original(w, x.a, x.k), Storage(w, x.a, x.k), x.value, forks), forks)
    - (SetStorage(w, x.a, x.k, x.value, forks).refund - w.refund)
  }

  lemma OneWritePays(w: World, x: SlotWrite, slots: seq<(Address, Slot)>, forks: Forks)
    requires Quorum.Distinct(slots) && (x.a, x.k) in slots
    ensures Paid(w, x, forks) == Touch(forks) + SlotsWorth(SetStorage(w, x.a, x.k, x.value, forks), slots, forks)
                                 - SlotsWorth(w, slots, forks)
  {
    SlotsWorthStep(w, x, slots, forks);
    WriteCosts(Original(w, x.a, x.k), Storage(w, x.a, x.k), x.value, forks);
    assert Storage(w, x.a, x.k) == x.value ==> Delta(Original(w, x.a, x.k), x.value, x.value, forks) == 0;
  }

  /** Whatever is written to whatever slots, in whatever order: what is charged less what the counter gains is the price
      of a touch for each write, and the change of the slots' worth. So it depends on the values before the
      transaction, at the start and at the end, and on nothing in between. */
  lemma {:induction false} NetCost(w: World, writes: seq<SlotWrite>, slots: seq<(Address, Slot)>, forks: Forks)
    requires Quorum.Distinct(slots) && forall x :: x in writes ==> (x.a, x.k) in slots
    ensures var w' := AfterWrites(w, writes, forks);
      Charged(w, writes, forks) - (w'.refund - w.refund)
      == |writes| * Touch(forks) + SlotsWorth(w', slots, forks) - SlotsWorth(w, slots, forks)
  {
    if writes != [] {
      var n := |writes| - 1;
      assert forall y :: y in writes[..n] ==> y in writes;
      NetCost(w, writes[..n], slots, forks);
      var before := AfterWrites(w, writes[..n], forks);
      assert writes[n] in writes;
      OneWritePays(before, writes[n], slots, forks);
      assert Charged(w, writes, forks) - (AfterWrites(w, writes, forks).refund - before.refund) ==
        Charged(w, writes[..n], forks) + Paid(before, writes[n], forks);
      OneMoreTouch(n, Touch(forks));
    }
  }

  lemma OneMoreTouch(n: nat, touch: nat)
    ensures (n + 1) * touch == n * touch + touch
  {
  }

  /** In particular, by the net rules, for one slot that starts with its value from before the transaction: beyond the
      touches only the last value counts. */
  lemma OneSlotCosts(w: World, writes: seq<SlotWrite>, a: Address, k: Slot, forks: Forks)
    requires forks.istanbul || (forks.constantinople && !forks.petersburg)
    requires Storage(w, a, k) == Original(w, a, k)
    requires forall x :: x in writes ==> x.a == a && x.k == k
    ensures var w' := AfterWrites(w, writes, forks);
      var original, last, b := Original(w, a, k), Storage(w', a, k), if forks.istanbul then 800 else 200;
      Charged(w, writes, forks) - (w'.refund - w.refund)
      == |writes| * b + (if last == original then 0
                         else if original == 0 then 20000 - b
                         else if last == 0 then 5000 - b - 15000
                         else 5000 - b)
  {
    NetCost(w, writes, [(a, k)], forks);
    var slots := [(a, k)];
    assert slots[..0] == [];
    OriginalKept(w, writes, a, k, forks);
  }

  /** By the rules before, each write costs 5000, and 15000 more if an empty slot is filled in the end, less if a
      filled one is emptied. */
  lemma OneSlotCostsLegacy(w: World, writes: seq<SlotWrite>, a: Address, k: Slot, forks: Forks)
    requires !forks.istanbul && (forks.petersburg || !forks.constantinople)
    requires forall x :: x in writes ==> x.a == a && x.k == k
    ensures var w' := AfterWrites(w, writes, forks);
      var first, last := Storage(w, a, k), Storage(w', a, k);
      Charged(w, writes, forks) - (w'.refund - w.refund)
      == |writes| * 5000 + (if last == 0 then 0 else 15000) - if first == 0 then 0 else 15000
  {
    NetCost(w, writes, [(a, k)], forks);
    var slots := [(a, k)];
    assert slots[..0] == [];
  }

  lemma {:induction false} OriginalKept(w: World, writes: seq<SlotWrite>, a: Address, k: Slot, forks: Forks)
    ensures Original(AfterWrites(w, writes, forks), a, k) == Original(w, a, k)
  {
    if writes != [] {
      var n := |writes| - 1;
      OriginalKept(w, writes[..n], a, k, forks);
      WriteReads(AfterWrites(w, writes[..n], forks), writes[n].a, writes[n].k, writes[n].value, forks, a, k);
    }
  }

  // ----- When the counter stays above zero -----

  /** Storage maps hold no zero values. */
  ghost predicate Tidy(w: World) {
    forall a :: a in w.accounts ==>
      && (forall k :: k in w.accounts[a].storage ==> w.accounts[a].storage[k] != 0)
      && (forall k :: k in w.accounts[a].committed ==> w.accounts[a].committed[k] != 0)
  }

  lemma WorldIsTidy(base: Base, o: Overlay)
    ensures Tidy(WorldOf(base, o))
  {
    forall a | a in WorldOf(base, o).accounts
      ensures forall k :: k in WorldOf(base, o).accounts[a].storage ==> WorldOf(base, o).accounts[a].storage[k] != 0
      ensures forall k :: k in WorldOf(base, o).accounts[a].committed ==> WorldOf(base, o).accounts[a].committed[k] != 0
    {
      AccountsAt(base, o.objects, a);
    }
  }

  /** The slots that were nonzero when committed and read zero now. */
  ghost function Zeroed(w: World): set<(Address, Slot)> {
    set a, k | a in w.accounts && k in w.accounts[a].committed && k !in w.accounts[a].storage :: (a, k)
  }

  /** The counter covers taking back the refund of every zeroed slot. */
  ghost predicate Covered(w: World) {
    Tidy(w) && w.refund >= CLEAR * |Zeroed(w)|
  }

  /** A call takes back more than the counter holds. */
  predicate Wraps(w: World, a: Address, k: Slot, value: Word, forks: Forks) {
    Subtracts(Original(w, a, k), Storage(w, a, k), value, forks) && w.refund < CLEAR
  }

  lemma ZeroedAt(w: World, a: Address, k: Slot)
    requires Tidy(w)
    ensures (a, k) in Zeroed(w) <==> Original(w, a, k) != 0 && Storage(w, a, k) == 0
  {
  }

  lemma CoveredDoesNotWrap(w: World, a: Address, k: Slot, value: Word, forks: Forks)
    requires Covered(w)
    ensures !Wraps(w, a, k, value, forks)
  {
    ZeroedAt(w, a, k);
  }

  lemma WriteZeroed(w: World, a: Address, k: Slot, value: Word)
    requires Tidy(w)
    ensures var w' := ApplyWorld(w, SetState(a, k, value));
      && Tidy(w')
      && Zeroed(w') == if Original(w, a, k) == 0 then Zeroed(w)
                       else if value == 0 then Zeroed(w) + {(a, k)} else Zeroed(w) - {(a, k)}
  {
    var w' := ApplyWorld(w, SetState(a, k, value));
    assert w'.accounts[a].committed == EntryOrNew(w, a).committed;
    forall b: Address, j: Slot
      ensures (b, j) in Zeroed(w') <==>
        if (b, j) == (a, k) then Original(w, a, k) != 0 && value == 0 else (b, j) in Zeroed(w)
    {
      ZeroedAt(w', b, j);
      ZeroedAt(w, b, j);
    }
    ZeroedAt(w, a, k);
  }

  lemma WriteKeepsCovered(w: World, a: Address, k: Slot, value: Word, forks: Forks)
    requires Covered(w) && !forks.Legacy()
    ensures Covered(SetStorage(w, a, k, value, forks))
  {
    if Storage(w, a, k) != value {
      WriteZeroed(w, a, k, value);
      ZeroedAt(w, a, k);
      var w' := SetStorage(w, a, k, value, forks);
      assert Zeroed(w') == Zeroed(ApplyWorld(w, SetState(a, k, value)));
    }
  }

  /** What happens in a transaction besides storage writes. */
  predicate InTransaction(op: Op) {
    !op.SetState? && !op.SubRefund? && !op.CleanDeleteObjects?
  }

  lemma UpdateKeepsStorage(e: Entry, op: Op)
    requires InTransaction(op)
    ensures var e' := UpdateEntry(e, op);
      || (e'.storage == e.storage && e'.committed == e.committed)
      || (e'.storage == map[] && e'.committed == map[])
  {
  }

  lemma OtherKeepsCovered(w: World, op: Op)
    requires Covered(w) && InTransaction(op)
    ensures Covered(ApplyWorld(w, op))
  {
    var w' := ApplyWorld(w, op);
    if OnAccount(op) {
      UpdateKeepsStorage(EntryOrNew(w, op.a), op);
    }
    assert StorageKept(w, w') && w'.refund >= w.refund;
    KeptKeepsCovered(w, w');
  }

  /** Every account keeps its slots, or has none. */
  ghost predicate StorageKept(w: World, w': World) {
    forall a :: a in w'.accounts ==> SlotsKept(w, w'.accounts[a], a)
  }

  predicate SlotsKept(w: World, e: Entry, a: Address) {
    || (a in w.accounts && e.storage == w.accounts[a].storage && e.committed == w.accounts[a].committed)
    || (e.storage == map[] && e.committed == map[])
  }

  lemma KeptKeepsCovered(w: World, w': World)
    requires Covered(w) && StorageKept(w, w') && w'.refund >= w.refund
    ensures Covered(w')
  {
    assert Zeroed(w') <= Zeroed(w) by {
      assert forall a :: a in w'.accounts ==> SlotsKept(w, w'.accounts[a], a);
    }
    SubsetSize(Zeroed(w'), Zeroed(w));
  }

  datatype Step = Write(a: Address, k: Slot, value: Word) | Other(op: Op) | Save | Restore(id: nat)

  ghost predicate Possible(p: Plain, step: Step) {
    (step.Other? ==> InTransaction(step.op)) && (step.Restore? ==> step.id < |p.snapshots|)
  }

  ghost function Next(p: Plain, step: Step, forks: Forks): Plain
    requires Possible(p, step)
  {
    match step
    case Write(a, k, value) => p.(cur := SetStorage(p.cur, a, k, value, forks))
    case Other(op) => p.(cur := ApplyWorld(p.cur, op))
    case Save => p.(snapshots := p.snapshots + [p.cur])
    case Restore(id) => p.(cur := p.snapshots[id])
  }

  /** A run of a transaction, reverting only to snapshots of its own. */
  ghost predicate Reaches(p: Plain, steps: seq<Step>, forks: Forks, q: Plain)
    decreases |steps|
  {
    if steps == [] then p == q
    else Possible(p, steps[0]) && Reaches(Next(p, steps[0], forks), steps[1..], forks, q)
  }

  ghost predicate AllCovered(p: Plain) {
    Covered(p.cur) && forall i :: 0 <= i < |p.snapshots| ==> Covered(p.snapshots[i])
  }

  lemma StepKeepsCovered(p: Plain, step: Step, forks: Forks)
    requires AllCovered(p) && Possible(p, step) && !forks.Legacy()
    ensures AllCovered(Next(p, step, forks))
  {
    match step
    case Write(a, k, value) => WriteKeepsCovered(p.cur, a, k, value, forks);
    case Other(op) => OtherKeepsCovered(p.cur, op);
    case Save =>
    case Restore(id) =>
  }

  lemma {:induction false} RunKeepsCovered(p: Plain, steps: seq<Step>, forks: Forks, q: Plain)
    requires AllCovered(p) && !forks.Legacy() && Reaches(p, steps, forks, q)
    ensures AllCovered(q)
    decreases |steps|
  {
    if steps != [] {
      StepKeepsCovered(p, steps[0], forks);
      RunKeepsCovered(Next(p, steps[0], forks), steps[1..], forks, q);
    }
  }

  /** No storage write after any run takes back more than the counter holds. */
  ghost predicate NeverWraps(w: World, forks: Forks) {
    forall steps: seq<Step>, q: Plain, a: Address, k: Slot, value: Word ::
      Reaches(Plain(w, []), steps, forks, q) ==> !Wraps(q.cur, a, k, value, forks)
  }

  /** Setting a zeroed slot to a new value takes back its refund and nothing else. */
  lemma UndoOne(w: World, a: Address, k: Slot, forks: Forks) returns (value: Word)
    requires Tidy(w) && !forks.Legacy() && (a, k) in Zeroed(w)
    ensures Subtracts(Original(w, a, k), Storage(w, a, k), value, forks)
    ensures var w' := SetStorage(w, a, k, value, forks);
      Tidy(w') && w'.refund == w.refund - CLEAR && Zeroed(w') == Zeroed(w) - {(a, k)}
  {
    ZeroedAt(w, a, k);
    value := if Original(w, a, k) == 1 then 2 else 1;
    WriteZeroed(w, a, k, value);
    var w' := SetStorage(w, a, k, value, forks);
    assert Zeroed(w') == Zeroed(ApplyWorld(w, SetState(a, k, value)));
  }

  lemma {:induction false} UncoveredWraps(w: World, forks: Forks)
    returns (steps: seq<Step>, q: Plain, a: Address, k: Slot, value: Word)
    requires Tidy(w) && !forks.Legacy() && 0 <= w.refund < CLEAR * |Zeroed(w)|
    ensures Reaches(Plain(w, []), steps, forks, q) && Wraps(q.cur, a, k, value, forks)
    decreases |Zeroed(w)|
  {
    var slot :| slot in Zeroed(w);
    var v := UndoOne(w, slot.0, slot.1, forks);
    if w.refund < CLEAR {
      return [], Plain(w, []), slot.0, slot.1, v;
    }
    var rest;
    rest, q, a, k, value := UncoveredWraps(SetStorage(w, slot.0, slot.1, v, forks), forks);
    steps := [Write(slot.0, slot.1, v)] + rest;
    assert steps[1..] == rest;
  }

  /** The counter never wraps below zero in a transaction exactly when it starts out covering the slots
      zeroed before, or the legacy rules apply. Slots zeroed by an earlier transaction of the same block count
      here, because the counter is cleared between transactions and the committed value is not. */
  lemma NeverWrapsExactly(w: World, forks: Forks)
    requires Tidy(w) && w.refund >= 0
    ensures NeverWraps(w, forks) <==> forks.Legacy() || w.refund >= CLEAR * |Zeroed(w)|
  {
    if forks.Legacy() {
    } else if w.refund >= CLEAR * |Zeroed(w)| {
      forall steps: seq<Step>, q: Plain, a: Address, k: Slot, value: Word | Reaches(Plain(w, []), steps, forks, q)
        ensures !Wraps(q.cur, a, k, value, forks)
      {
        RunKeepsCovered(Plain(w, []), steps, forks, q);
        CoveredDoesNotWrap(q.cur, a, k, value, forks);
      }
    } else {
      var _, _, _, _, _ := UncoveredWraps(w, forks);
    }
  }
}
