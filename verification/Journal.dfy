/** The state journal of state/txn.go and state/state.go: an overlay of changed accounts over a committed
    snapshot. World is the same state written out in full; every operation on the overlay is shown to do to
    the world what its name says. */
module Journal {
  import opened Types

  type Slot = nat
  type Word = nat

  /** What an account that does not exist has for a code hash, and what one without code has. */
  const ZERO_HASH: nat := 0
  const EMPTY_CODE_HASH: nat := 1

  predicate IsCode(codeHash: nat) {
    codeHash != EMPTY_CODE_HASH && codeHash != ZERO_HASH
  }

  /** An account as committed; a slot that is missing reads zero. */
  datatype Account = Account(nonce: nat, balance: nat, codeHash: nat, storage: map<Slot, Word>)

  /** An account in the overlay: the committed storage below the slots written since. */
  datatype Object = Object(account: Account, dirty: map<Slot, Word>, suicide: bool, deleted: bool) {
    predicate Empty() {
      account.nonce == 0 && account.balance == 0 && account.codeHash == EMPTY_CODE_HASH
    }
  }

  datatype Log = Log(address: Address, topics: seq<nat>, data: seq<nat>)

  /** The refund counter of the source is this one modulo 2^64. */
  datatype Overlay = Overlay(objects: map<Address, Object>, logs: seq<Log>, refund: int)

  type Base = map<Address, Account>

  const NEW_OBJECT := Object(Account(0, 0, EMPTY_CODE_HASH, map[]), map[], false, false)

  const EMPTY_OVERLAY := Overlay(map[], [], 0)

  /** The object of an account: from the overlay, where a deleted one hides the base, or from the base. */
  function Lookup(base: Base, objects: map<Address, Object>, a: Address): Option<Object> {
    if a in objects then
      if objects[a].deleted then None else Some(objects[a])
    else if a in base then Some(Object(base[a], map[], false, false))
    else None
  }

  function LookupOrNew(base: Base, o: Overlay, a: Address): Object {
    var obj := Lookup(base, o.objects, a);
    if obj.Some? then obj.value else NEW_OBJECT
  }

  function Insert(o: Overlay, a: Address, obj: Object): Overlay {
    o.(objects := o.objects[a := obj])
  }

  datatype Op =
    | AddBalance(a: Address, amount: nat)
    | AddSealingReward(a: Address, amount: nat)
    | SubBalance(a: Address, amount: nat)
    | SetBalance(a: Address, amount: nat)
    | IncrNonce(a: Address)
    | SetNonce(a: Address, nonce: nat)
    | SetCode(a: Address, codeHash: nat)
    | SetState(a: Address, key: Slot, value: Word)
    | Suicide(a: Address)
    | TouchAccount(a: Address)
    | CreateAccount(a: Address)
    | EmitLog(log: Log)
    | AddRefund(gas: nat)
    | SubRefund(gas: nat)
    | TakeLogs
    | CleanDeleteObjects(deleteEmpty: bool)

  // ----- The operations on the overlay -----

  function WithBalance(obj: Object, balance: nat): Object {
    obj.(account := obj.account.(balance := balance))
  }

  function Balance(base: Base, o: Overlay, a: Address): nat {
    LookupOrNew(base, o, a).account.balance
  }

  /** Is the object marked by CleanDeleteObjects? */
  predicate Removable(obj: Object, deleteEmpty: bool) {
    obj.suicide || (obj.Empty() && deleteEmpty)
  }

  function Clean(o: Overlay, deleteEmpty: bool): Overlay {
    o.(refund := 0,
       objects := map a | a in o.objects ::
         if Removable(o.objects[a], deleteEmpty) then o.objects[a].(deleted := true) else o.objects[a])
  }

  function UpdateObject(obj: Object, op: Op): Object {
    match op
    case AddBalance(_, amount) => WithBalance(obj, obj.account.balance + amount)
    case AddSealingReward(_, amount) =>
      if obj.suicide then WithBalance(NEW_OBJECT, amount)
      else WithBalance(obj, obj.account.balance + amount)
    case SubBalance(_, amount) =>
      WithBalance(obj, if obj.account.balance < amount then 0 else obj.account.balance - amount)
    case SetBalance(_, amount) => WithBalance(obj, amount)
    case IncrNonce(_) => obj.(account := obj.account.(nonce := obj.account.nonce + 1))
    case SetNonce(_, nonce) => obj.(account := obj.account.(nonce := nonce))
    case SetCode(_, codeHash) => obj.(account := obj.account.(codeHash := codeHash))
    case SetState(_, key, value) => obj.(dirty := obj.dirty[key := value])
    case Suicide(_) => WithBalance(obj.(suicide := true), 0)
    case CreateAccount(_) => WithBalance(NEW_OBJECT, obj.account.balance)
    case _ => obj
  }

  /** Operations that leave everything as it is. */
  predicate Skipped(base: Base, o: Overlay, op: Op) {
    || (op.SubBalance? && (op.amount == 0 || Balance(base, o, op.a) < op.amount))
    || (op.Suicide? && Lookup(base, o.objects, op.a).None?)
  }

  predicate OnAccount(op: Op) {
    !op.EmitLog? && !op.AddRefund? && !op.SubRefund? && !op.TakeLogs? && !op.CleanDeleteObjects?
  }

  function Apply(base: Base, o: Overlay, op: Op): Overlay {
    if Skipped(base, o, op) then o
    else if OnAccount(op) then Insert(o, op.a, UpdateObject(LookupOrNew(base, o, op.a), op))
    else match op
      case EmitLog(log) => o.(logs := o.logs + [log])
      case AddRefund(gas) => o.(refund := o.refund + gas)
      case SubRefund(gas) => o.(refund := o.refund - gas)
      case TakeLogs => o.(logs := [])
      case CleanDeleteObjects(deleteEmpty) => Clean(o, deleteEmpty)
  }

  // ----- The world -----

  /** An account in full: storage as it reads now and as it read when committed, nonzero slots only. */
  datatype Entry = Entry(nonce: nat, balance: nat, codeHash: nat,
                         storage: map<Slot, Word>, committed: map<Slot, Word>, suicide: bool)

  datatype World = World(accounts: map<Address, Entry>, touched: set<Address>, logs: seq<Log>, refund: int)

  const NEW_ENTRY := Entry(0, 0, EMPTY_CODE_HASH, map[], map[], false)

  function Nonzero(m: map<Slot, Word>): map<Slot, Word> {
    map k | k in m && m[k] != 0 :: m[k]
  }

  function EntryOf(obj: Object): Entry {
    Entry(obj.account.nonce, obj.account.balance, obj.account.codeHash,
          Nonzero(obj.account.storage + obj.dirty), Nonzero(obj.account.storage), obj.suicide)
  }

  function Accounts(base: Base, objects: map<Address, Object>): map<Address, Entry> {
    map a | a in base.Keys + objects.Keys && Lookup(base, objects, a).Some? :: EntryOf(Lookup(base, objects, a).value)
  }

  function WorldOf(base: Base, o: Overlay): World {
    World(Accounts(base, o.objects), o.objects.Keys, o.logs, o.refund)
  }

  function EntryOrNew(w: World, a: Address): Entry {
    if a in w.accounts then w.accounts[a] else NEW_ENTRY
  }

  function UpdateEntry(e: Entry, op: Op): Entry {
    match op
    case AddBalance(_, amount) => e.(balance := e.balance + amount)
    case AddSealingReward(_, amount) =>
      if e.suicide then NEW_ENTRY.(balance := amount) else e.(balance := e.balance + amount)
    case SubBalance(_, amount) => e.(balance := if e.balance < amount then 0 else e.balance - amount)
    case SetBalance(_, amount) => e.(balance := amount)
    case IncrNonce(_) => e.(nonce := e.nonce + 1)
    case SetNonce(_, nonce) => e.(nonce := nonce)
    case SetCode(_, codeHash) => e.(codeHash := codeHash)
    case SetState(_, key, value) => e.(storage := if value == 0 then e.storage - {key} else e.storage[key := value])
    case Suicide(_) => e.(suicide := true, balance := 0)
    case CreateAccount(_) => NEW_ENTRY.(balance := e.balance)
    case _ => e
  }

  predicate EntryEmpty(e: Entry) {
    e.nonce == 0 && e.balance == 0 && e.codeHash == EMPTY_CODE_HASH
  }

  /** Is the account removed at the end of a transaction? */
  predicate Dropped(w: World, a: Address, deleteEmpty: bool)
    requires a in w.accounts
  {
    a in w.touched && (w.accounts[a].suicide || (EntryEmpty(w.accounts[a]) && deleteEmpty))
  }

  function Drop(w: World, deleteEmpty: bool): map<Address, Entry> {
    map a | a in w.accounts && !Dropped(w, a, deleteEmpty) :: w.accounts[a]
  }

  /** The operations, done directly on the accounts. */
  function ApplyWorld(w: World, op: Op): World {
    if op.SubBalance? && (op.amount == 0 || EntryOrNew(w, op.a).balance < op.amount) then w
    else if op.Suicide? && op.a !in w.accounts then w
    else if OnAccount(op) then
      w.(accounts := w.accounts[op.a := UpdateEntry(EntryOrNew(w, op.a), op)], touched := w.touched + {op.a})
    else match op
      case EmitLog(log) => w.(logs := w.logs + [log])
      case AddRefund(gas) => w.(refund := w.refund + gas)
      case SubRefund(gas) => w.(refund := w.refund - gas)
      case TakeLogs => w.(logs := [])
      case CleanDeleteObjects(deleteEmpty) => w.(accounts := Drop(w, deleteEmpty), refund := 0)
  }

  lemma WorldAt(base: Base, o: Overlay, a: Address)
    ensures a in WorldOf(base, o).accounts <==> Lookup(base, o.objects, a).Some?
    ensures EntryOrNew(WorldOf(base, o), a) == EntryOf(LookupOrNew(base, o, a))
  {
    assert EntryOf(NEW_OBJECT) == NEW_ENTRY by {
      assert Nonzero(NEW_OBJECT.account.storage + NEW_OBJECT.dirty) == map[] == Nonzero(NEW_OBJECT.account.storage);
    }
  }

  lemma UpdateMatches(obj: Object, op: Op)
    ensures EntryOf(UpdateObject(obj, op)) == UpdateEntry(EntryOf(obj), op)
  {
    assert Nonzero(NEW_OBJECT.account.storage + NEW_OBJECT.dirty) == map[] == Nonzero(NEW_OBJECT.account.storage);
    if op.SetState? {
      var m := obj.account.storage + obj.dirty;
      assert obj.account.storage + obj.dirty[op.key := op.value] == m[op.key := op.value];
      assert Nonzero(m[op.key := op.value])
          == if op.value == 0 then Nonzero(m) - {op.key} else Nonzero(m)[op.key := op.value];
    }
  }

  lemma AccountsAt(base: Base, objects: map<Address, Object>, a: Address)
    ensures a in Accounts(base, objects) <==> Lookup(base, objects, a).Some?
    ensures Lookup(base, objects, a).Some? ==>
      Accounts(base, objects)[a] == EntryOf(Lookup(base, objects, a).value)
  {
  }

  lemma MapsEqual<K, V>(m: map<K, V>, n: map<K, V>)
    requires m.Keys == n.Keys && forall k :: k in m ==> m[k] == n[k]
    ensures m == n
  {
  }

  lemma InsertMatches(base: Base, objects: map<Address, Object>, a: Address, obj: Object)
    requires !obj.deleted
    ensures Accounts(base, objects[a := obj]) == Accounts(base, objects)[a := EntryOf(obj)]
  {
    var m, n := Accounts(base, objects[a := obj]), Accounts(base, objects)[a := EntryOf(obj)];
    forall b: Address ensures b in m <==> b in n
      ensures b in m ==> m[b] == n[b]
    {
      AccountsAt(base, objects, b);
      AccountsAt(base, objects[a := obj], b);
    }
    MapsEqual(m, n);
  }

  lemma CleanMatches(base: Base, o: Overlay, deleteEmpty: bool)
    ensures WorldOf(base, Clean(o, deleteEmpty)).accounts == Drop(WorldOf(base, o), deleteEmpty)
  {
    var m, n := Accounts(base, Clean(o, deleteEmpty).objects), Drop(WorldOf(base, o), deleteEmpty);
    forall a: Address ensures a in m <==> a in n
      ensures a in m ==> m[a] == n[a]
    {
      AccountsAt(base, o.objects, a);
      AccountsAt(base, Clean(o, deleteEmpty).objects, a);
    }
    MapsEqual(m, n);
  }

  lemma InsertWorld(base: Base, o: Overlay, a: Address, obj: Object)
    requires !obj.deleted
    ensures WorldOf(base, Insert(o, a, obj))
         == WorldOf(base, o).(accounts := WorldOf(base, o).accounts[a := EntryOf(obj)],
                              touched := WorldOf(base, o).touched + {a})
  {
    InsertMatches(base, o.objects, a, obj);
    assert o.objects[a := obj].Keys == o.objects.Keys + {a};
  }

  lemma SkippedMatches(base: Base, o: Overlay, op: Op)
    requires OnAccount(op)
    ensures Skipped(base, o, op) ==> ApplyWorld(WorldOf(base, o), op) == WorldOf(base, o)
    ensures !Skipped(base, o, op) ==>
      var w := WorldOf(base, o);
      ApplyWorld(w, op)
        == w.(accounts := w.accounts[op.a := UpdateEntry(EntryOrNew(w, op.a), op)], touched := w.touched + {op.a})
  {
    WorldAt(base, o, op.a);
  }

  lemma AccountRefinesWorld(base: Base, o: Overlay, op: Op)
    requires OnAccount(op)
    ensures WorldOf(base, Apply(base, o, op)) == ApplyWorld(WorldOf(base, o), op)
  {
    SkippedMatches(base, o, op);
    if !Skipped(base, o, op) {
      WorldAt(base, o, op.a);
      var obj := LookupOrNew(base, o, op.a);
      UpdateMatches(obj, op);
      InsertWorld(base, o, op.a, UpdateObject(obj, op));
    }
  }

  /** Every operation on the overlay does to the world what the plain operation does. */
  lemma OverlayRefinesWorld(base: Base, o: Overlay, op: Op)
    ensures WorldOf(base, Apply(base, o, op)) == ApplyWorld(WorldOf(base, o), op)
  {
    if OnAccount(op) {
      AccountRefinesWorld(base, o, op);
    } else if op.CleanDeleteObjects? {
      CleanMatches(base, o, op.deleteEmpty);
      assert Clean(o, op.deleteEmpty).objects.Keys == o.objects.Keys;
    }
  }

  // ----- Laws of the plain operations -----

  /** What is set is read back, by itself: the other fields, the other accounts and the rest stay. */
  lemma SettersRead(w: World, a: Address, balance: nat, nonce: nat, codeHash: nat, key: Slot, value: Word)
    ensures EntryOrNew(ApplyWorld(w, SetBalance(a, balance)), a) == EntryOrNew(w, a).(balance := balance)
    ensures EntryOrNew(ApplyWorld(w, SetNonce(a, nonce)), a) == EntryOrNew(w, a).(nonce := nonce)
    ensures EntryOrNew(ApplyWorld(w, SetCode(a, codeHash)), a) == EntryOrNew(w, a).(codeHash := codeHash)
    ensures var e, e' := EntryOrNew(w, a), EntryOrNew(ApplyWorld(w, SetState(a, key, value)), a);
      && e' == e.(storage := e'.storage)
      && (if value == 0 then key !in e'.storage else key in e'.storage && e'.storage[key] == value)
      && forall k :: k != key ==>
           (k in e'.storage <==> k in e.storage) && (k in e.storage ==> e'.storage[k] == e.storage[k])
  {
  }

  lemma OthersUntouched(w: World, op: Op, b: Address)
    ensures OnAccount(op) ==> ApplyWorld(w, op).logs == w.logs && ApplyWorld(w, op).refund == w.refund
    ensures OnAccount(op) && b != op.a ==> EntryOrNew(ApplyWorld(w, op), b) == EntryOrNew(w, b)
    ensures !OnAccount(op) && !op.CleanDeleteObjects? ==> ApplyWorld(w, op).accounts == w.accounts
  {
  }

  /** Adding and subtracting are setting the sum and the difference; too large a difference changes nothing, and
      subtracting what was added restores every account. */
  lemma MoneyLaws(w: World, a: Address, x: nat, b: Address)
    ensures ApplyWorld(w, AddBalance(a, x)) == ApplyWorld(w, SetBalance(a, EntryOrNew(w, a).balance + x))
    ensures 0 < x <= EntryOrNew(w, a).balance ==>
      ApplyWorld(w, SubBalance(a, x)) == ApplyWorld(w, SetBalance(a, EntryOrNew(w, a).balance - x))
    ensures x == 0 || x > EntryOrNew(w, a).balance ==> ApplyWorld(w, SubBalance(a, x)) == w
    ensures EntryOrNew(ApplyWorld(ApplyWorld(w, AddBalance(a, x)), SubBalance(a, x)), b) == EntryOrNew(w, b)
    ensures !EntryOrNew(w, a).suicide ==> ApplyWorld(w, AddSealingReward(a, x)) == ApplyWorld(w, AddBalance(a, x))
    ensures EntryOrNew(w, a).suicide ==>
      EntryOrNew(ApplyWorld(w, AddSealingReward(a, x)), a) == NEW_ENTRY.(balance := x)
  {
  }

  /** A new account keeps the balance and nothing else; a suicided one loses it, keeps the rest until the end of the
      transaction, and must exist; a touched account reads as before. */
  lemma LifeLaws(w: World, a: Address)
    ensures ApplyWorld(w, IncrNonce(a)) == ApplyWorld(w, SetNonce(a, EntryOrNew(w, a).nonce + 1))
    ensures EntryOrNew(ApplyWorld(w, CreateAccount(a)), a) == NEW_ENTRY.(balance := EntryOrNew(w, a).balance)
    ensures a in w.accounts ==>
      EntryOrNew(ApplyWorld(w, Suicide(a)), a) == w.accounts[a].(suicide := true, balance := 0)
    ensures a !in w.accounts ==> ApplyWorld(w, Suicide(a)) == w
    ensures EntryOrNew(ApplyWorld(w, TouchAccount(a)), a) == EntryOrNew(w, a)
    ensures a in ApplyWorld(w, TouchAccount(a)).touched
  {
  }

  /** Logs are taken in the order they were emitted, and the counter counts. */
  lemma LogLaws(w: World, x: Log, y: Log, gas: nat)
    ensures ApplyWorld(ApplyWorld(ApplyWorld(w, TakeLogs), EmitLog(x)), EmitLog(y)).logs == [x, y]
    ensures ApplyWorld(ApplyWorld(w, AddRefund(gas)), SubRefund(gas)) == w
    ensures ApplyWorld(w, AddRefund(gas)).refund == w.refund + gas
  {
  }

  // ----- Snapshots and whole runs -----

  datatype Action = Do(op: Op) | Snapshot | RevertToSnapshot(id: nat)

  /** One tree of the journal: what it reads as, and where its log list lies. The list is a slice of a backing
      array, with room for so many logs; there is no array before the first log. */
  datatype Version = Version(o: Overlay, block: Option<nat>, room: nat)

  /** The current tree, every snapshot taken, and the number of backing arrays so far; reverting drops no
      snapshot. */
  datatype State = State(cur: Version, snapshots: seq<Version>, arrays: nat)

  const START := State(Version(EMPTY_OVERLAY, None, 0), [], 0)

  /** What v reads as once a log is written right behind the logs of w. */
  function Overwritten(v: Version, w: Version, log: Log): Version {
    if v.block.Some? && v.block == w.block && |w.o.logs| < |v.o.logs|
    then v.(o := v.o.(logs := v.o.logs[|w.o.logs| := log])) else v
  }

  /** append: in place while there is room, and else into a new array with some room to spare. */
  function Emit(spare: nat -> nat, s: State, log: Log): State {
    var n, o := |s.cur.o.logs|, s.cur.o.(logs := s.cur.o.logs + [log]);
    if n < s.cur.room then
      State(s.cur.(o := o),
            seq(|s.snapshots|, i requires 0 <= i < |s.snapshots| => Overwritten(s.snapshots[i], s.cur, log)), s.arrays)
    else State(Version(o, Some(s.arrays), n + 1 + spare(n + 1)), s.snapshots, s.arrays + 1)
  }

  function Done(base: Base, spare: nat -> nat, s: State, op: Op): State {
    match op
    case EmitLog(log) => Emit(spare, s, log)
    case TakeLogs => s.(cur := Version(Apply(base, s.cur.o, op), None, 0))
    case _ => s.(cur := s.cur.(o := Apply(base, s.cur.o, op)))
  }

  /** One action; None is the panic of a revert to a snapshot that does not exist. */
  function Act(base: Base, spare: nat -> nat, s: State, action: Action): Option<State> {
    match action
    case Do(op) => Some(Done(base, spare, s, op))
    case Snapshot => Some(s.(snapshots := s.snapshots + [s.cur]))
    case RevertToSnapshot(id) => if id < |s.snapshots| then Some(s.(cur := s.snapshots[id])) else None
  }

  function Run(base: Base, spare: nat -> nat, s: State, actions: seq<Action>): Option<State> {
    if actions == [] then Some(s)
    else
      var before := Run(base, spare, s, actions[..|actions| - 1]);
      if before.None? then None else Act(base, spare, before.value, actions[|actions| - 1])
  }

  lemma DoneApplies(base: Base, spare: nat -> nat, s: State, op: Op)
    ensures Done(base, spare, s, op).cur.o == Apply(base, s.cur.o, op)
    ensures !op.EmitLog? ==> Done(base, spare, s, op).snapshots == s.snapshots
  {
  }

  lemma {:induction false} RunAppend(base: Base, spare: nat -> nat, s: State, xs: seq<Action>, ys: seq<Action>)
    ensures Run(base, spare, s, xs + ys)
         == if Run(base, spare, s, xs).None? then None else Run(base, spare, Run(base, spare, s, xs).value, ys)
    decreases |ys|
  {
    if ys == [] {
      assert xs + ys == xs;
    } else {
      RunAppend(base, spare, s, xs, ys[..|ys| - 1]);
      assert (xs + ys)[..|xs + ys| - 1] == xs + ys[..|ys| - 1];
    }
  }

  lemma RunOne(base: Base, spare: nat -> nat, s: State, action: Action)
    ensures Run(base, spare, s, [action]) == Act(base, spare, s, action)
  {
    assert [action][..0] == [];
  }

  // ----- Which snapshots an emitted log leaves alone -----

  /** A log leaves a snapshot alone unless it goes in place, the snapshot shares the array and reaches beyond
      the current list, and has another log there. */
  lemma EmitKeepsExactly(spare: nat -> nat, s: State, log: Log, i: nat)
    requires i < |s.snapshots|
    ensures var v, n := s.snapshots[i], |s.cur.o.logs|;
            Emit(spare, s, log).snapshots[i] == v <==>
              (n < s.cur.room && v.block.Some? && v.block == s.cur.block && n < |v.o.logs| ==> v.o.logs[n] == log)
  {
    var v, n := s.snapshots[i], |s.cur.o.logs|;
    if v.block.Some? && v.block == s.cur.block && n < |v.o.logs| {
      assert v.o.logs[n := log][n] == log;
    }
  }

  /** Where the two share an array, v does not reach beyond w. */
  predicate Behind(v: Version, w: Version) {
    v.block.Some? && v.block == w.block ==> |v.o.logs| <= |w.o.logs|
  }

  predicate Placed(v: Version, arrays: nat) {
    v.block.Some? ==> v.block.value < arrays
  }

  /** The snapshots of this set were taken one after the other on the way to the current tree. */
  ghost predicate OnPath(s: State, live: set<nat>) {
    && (forall i :: i in live ==>
          i < |s.snapshots| && Placed(s.snapshots[i], s.arrays) && Behind(s.snapshots[i], s.cur))
    && (forall i, j :: i in live && j in live && i < j ==> Behind(s.snapshots[i], s.snapshots[j]))
    && Placed(s.cur, s.arrays)
  }

  /** s' has the given snapshots of s as they were. */
  ghost predicate Keeps(s: State, s': State, live: set<nat>) {
    |s.snapshots| <= |s'.snapshots| && forall i :: i in live && i < |s.snapshots| ==> s'.snapshots[i] == s.snapshots[i]
  }

  /** Operations of any kind keep the snapshots on the path. */
  lemma DoneKeepsPath(base: Base, spare: nat -> nat, s: State, op: Op, live: set<nat>)
    requires OnPath(s, live)
    ensures OnPath(Done(base, spare, s, op), live) && Keeps(s, Done(base, spare, s, op), live)
  {
    if OnAccount(op) {
      assert Apply(base, s.cur.o, op).logs == s.cur.o.logs;
    }
  }

  lemma SnapshotOnPath(base: Base, spare: nat -> nat, s: State, live: set<nat>)
    requires OnPath(s, live)
    ensures OnPath(Act(base, spare, s, Snapshot).value, live + {|s.snapshots|})
    ensures Keeps(s, Act(base, spare, s, Snapshot).value, live)
  {
  }

  ghost function UpTo(live: set<nat>, id: nat): set<nat> {
    set i | i in live && i <= id
  }

  lemma RevertOnPath(base: Base, spare: nat -> nat, s: State, live: set<nat>, id: nat)
    requires OnPath(s, live) && id in live
    ensures OnPath(Act(base, spare, s, RevertToSnapshot(id)).value, UpTo(live, id))
  {
  }

  // ----- Reverting -----

  predicate SameButLogs(v: Overlay, w: Overlay) {
    v.objects == w.objects && v.refund == w.refund
  }

  /** All snapshots stay as they are but for their logs. */
  lemma {:induction false} RunKeepsSnapshots(base: Base, spare: nat -> nat, s: State, actions: seq<Action>)
    ensures Run(base, spare, s, actions).Some? ==>
      var s' := Run(base, spare, s, actions).value;
      |s.snapshots| <= |s'.snapshots|
      && forall i :: 0 <= i < |s.snapshots| ==> SameButLogs(s.snapshots[i].o, s'.snapshots[i].o)
  {
    if actions != [] {
      RunKeepsSnapshots(base, spare, s, actions[..|actions| - 1]);
    }
  }

  /** No action reverts to a snapshot taken before number id. */
  predicate NotBelow(actions: seq<Action>, id: nat) {
    forall i :: 0 <= i < |actions| && actions[i].RevertToSnapshot? ==> actions[i].id >= id
  }

  /** Snapshot id lies on the path to the current tree and to every later snapshot. */
  ghost predicate Anchored(s: State, id: nat) {
    && id < |s.snapshots| && Placed(s.snapshots[id], s.arrays) && Behind(s.snapshots[id], s.cur)
    && forall j :: id <= j < |s.snapshots| ==> Behind(s.snapshots[id], s.snapshots[j])
  }

  lemma ActAnchored(base: Base, spare: nat -> nat, s: State, id: nat, action: Action)
    requires Anchored(s, id) && (action.RevertToSnapshot? ==> action.id >= id) && Act(base, spare, s, action).Some?
    ensures var s' := Act(base, spare, s, action).value; Anchored(s', id) && s'.snapshots[id] == s.snapshots[id]
  {
    if action.Do? && OnAccount(action.op) {
      assert Apply(base, s.cur.o, action.op).logs == s.cur.o.logs;
    }
  }

  lemma {:induction false} RunAnchored(base: Base, spare: nat -> nat, s: State, id: nat, actions: seq<Action>)
    requires Anchored(s, id) && NotBelow(actions, id) && Run(base, spare, s, actions).Some?
    ensures var s' := Run(base, spare, s, actions).value; Anchored(s', id) && s'.snapshots[id] == s.snapshots[id]
  {
    if actions != [] {
      RunAnchored(base, spare, s, id, actions[..|actions| - 1]);
      ActAnchored(base, spare, Run(base, spare, s, actions[..|actions| - 1]).value, id, actions[|actions| - 1]);
    }
  }

  /** Reverting to a snapshot restores the accounts and the refund it was taken of, whatever happened in between,
      including other snapshots and reverts; and the logs as well if none of those reverts went further back. */
  lemma RevertRestores(base: Base, spare: nat -> nat, s: State, actions: seq<Action>)
    requires Placed(s.cur, s.arrays) && Run(base, spare, s, [Snapshot] + actions).Some?
    ensures var r := Run(base, spare, s, [Snapshot] + actions + [RevertToSnapshot(|s.snapshots|)]);
      && r.Some? && SameButLogs(s.cur.o, r.value.cur.o)
      && (NotBelow(actions, |s.snapshots|) ==> r.value.cur == s.cur)
  {
    var id := |s.snapshots|;
    var taken := Act(base, spare, s, Snapshot).value;
    RunOne(base, spare, s, Snapshot);
    RunAppend(base, spare, s, [Snapshot], actions);
    assert taken.snapshots[id] == s.cur;
    RunKeepsSnapshots(base, spare, taken, actions);
    if NotBelow(actions, id) {
      RunAnchored(base, spare, taken, id, actions);
    }
    RunAppend(base, spare, s, [Snapshot] + actions, [RevertToSnapshot(id)]);
    RunOne(base, spare, Run(base, spare, s, [Snapshot] + actions).value, RevertToSnapshot(id));
  }

  // ----- The condition is exact -----

  ghost predicate Reached(base: Base, spare: nat -> nat, s: State) {
    exists actions :: Run(base, spare, START, actions) == Some(s)
  }

  /** Every revert restores everything; `below` tells whether reverts in between may go further back. */
  ghost predicate AlwaysRestores(base: Base, spare: nat -> nat, below: bool) {
    forall s, actions | Reached(base, spare, s) && (below || NotBelow(actions, |s.snapshots|)) ::
      Restores(base, spare, s, actions)
  }

  ghost predicate Restores(base: Base, spare: nat -> nat, s: State, actions: seq<Action>) {
    Run(base, spare, s, [Snapshot] + actions).Some? ==>
      var r := Run(base, spare, s, [Snapshot] + actions + [RevertToSnapshot(|s.snapshots|)]);
      r.Some? && r.value.cur == s.cur
  }

  lemma {:induction false} RunPlaced(base: Base, spare: nat -> nat, actions: seq<Action>)
    ensures var r := Run(base, spare, START, actions);
      r.Some? ==> Placed(r.value.cur, r.value.arrays)
                  && forall i :: 0 <= i < |r.value.snapshots| ==> Placed(r.value.snapshots[i], r.value.arrays)
  {
    if actions != [] {
      RunPlaced(base, spare, actions[..|actions| - 1]);
    }
  }

  predicate Full(v: Version) {
    v.room <= |v.o.logs|
  }

  ghost predicate AllFull(s: State) {
    Full(s.cur) && forall i :: 0 <= i < |s.snapshots| ==> Full(s.snapshots[i])
  }

  /** If append leaves no room to spare, no log goes in place. */
  lemma {:induction false} RunFull(base: Base, spare: nat -> nat, s: State, actions: seq<Action>)
    requires AllFull(s) && forall n :: n > 0 ==> spare(n) == 0
    ensures Run(base, spare, s, actions).Some? ==>
      var s' := Run(base, spare, s, actions).value; AllFull(s') && s.snapshots <= s'.snapshots
  {
    if actions != [] {
      RunFull(base, spare, s, actions[..|actions| - 1]);
      var before := Run(base, spare, s, actions[..|actions| - 1]);
      if before.Some? && actions[|actions| - 1].Do? && OnAccount(actions[|actions| - 1].op) {
        assert Apply(base, before.value.cur.o, actions[|actions| - 1].op).logs == before.value.cur.o.logs;
      }
    }
  }

  lemma FullRestores(base: Base, spare: nat -> nat, s: State, actions: seq<Action>)
    requires Reached(base, spare, s) && forall n :: n > 0 ==> spare(n) == 0
    ensures Restores(base, spare, s, actions)
  {
    var reach :| Run(base, spare, START, reach) == Some(s);
    RunFull(base, spare, START, reach);
    if Run(base, spare, s, [Snapshot] + actions).Some? {
      var taken := Act(base, spare, s, Snapshot).value;
      RunOne(base, spare, s, Snapshot);
      RunAppend(base, spare, s, [Snapshot], actions);
      RunFull(base, spare, taken, actions);
      RunAppend(base, spare, s, [Snapshot] + actions, [RevertToSnapshot(|s.snapshots|)]);
      RunOne(base, spare, Run(base, spare, s, [Snapshot] + actions).value, RevertToSnapshot(|s.snapshots|));
    }
  }

  const LOG_A := Log(1, [], [])
  const LOG_B := Log(2, [], [])

  /** The first m logs, while append leaves no room to spare. */
  lemma {:induction false} EmitMany(base: Base, spare: nat -> nat, m: nat) returns (actions: seq<Action>, s: State)
    requires forall n :: 0 < n < m ==> spare(n) == 0
    ensures Run(base, spare, START, actions) == Some(s) && s.snapshots == [] && |s.cur.o.logs| == m
    ensures if m == 0 then s == START else s.cur.block.Some? && s.cur.room == m + spare(m)
  {
    if m == 0 {
      return [], START;
    }
    var before, t := EmitMany(base, spare, m - 1);
    RunAppend(base, spare, START, before, [Do(EmitLog(LOG_A))]);
    RunOne(base, spare, t, Do(EmitLog(LOG_A)));
    actions := before + [Do(EmitLog(LOG_A))];
    s := Emit(spare, t, LOG_A);
  }

  lemma {:induction false} LeastSpare(spare: nat -> nat, m: nat) returns (n: nat)
    requires m > 0 && spare(m) > 0
    ensures 0 < n && spare(n) > 0 && forall k :: 0 < k < n ==> spare(k) == 0
  {
    if k :| 0 < k < m && spare(k) > 0 {
      n := LeastSpare(spare, k);
    } else {
      n := m;
    }
  }

  /** With room to spare for one more log: snapshot 0, log A, then snapshot 1 and a revert to 0, log B over A,
      and a revert to 1 brings back B. In Go the room is there after three logs. */
  lemma LateRevert(base: Base, spare: nat -> nat, s: State)
    requires |s.cur.o.logs| < s.cur.room && s.cur.block.Some? && s.snapshots == []
    ensures var t := Emit(spare, Act(base, spare, s, Snapshot).value, LOG_A);
            var actions := [RevertToSnapshot(0), Do(EmitLog(LOG_B))];
            var r := Run(base, spare, t, [Snapshot] + actions + [RevertToSnapshot(1)]);
            && |t.snapshots| == 1 && !Restores(base, spare, t, actions)
            && t.cur.o.logs == s.cur.o.logs + [LOG_A] && r.Some? && r.value.cur.o.logs == s.cur.o.logs + [LOG_B]
  {
    var t := Emit(spare, Act(base, spare, s, Snapshot).value, LOG_A);
    var actions := [RevertToSnapshot(0), Do(EmitLog(LOG_B))];
    var t1 := Act(base, spare, t, Snapshot).value;
    var t2 := Act(base, spare, t1, RevertToSnapshot(0)).value;
    var t3 := Emit(spare, t2, LOG_B);
    assert t1.snapshots[0] == s.cur && t1.snapshots[1] == t.cur;
    assert t3.snapshots[1].o.logs == (s.cur.o.logs + [LOG_A])[|s.cur.o.logs| := LOG_B] == s.cur.o.logs + [LOG_B];
    RunOne(base, spare, t, Snapshot);
    RunOne(base, spare, t1, RevertToSnapshot(0));
    RunOne(base, spare, t2, Do(EmitLog(LOG_B)));
    RunOne(base, spare, t3, RevertToSnapshot(1));
    RunAppend(base, spare, t, [Snapshot], [RevertToSnapshot(0)]);
    RunAppend(base, spare, t, [Snapshot] + [RevertToSnapshot(0)], [Do(EmitLog(LOG_B))]);
    assert [Snapshot] + actions == [Snapshot] + [RevertToSnapshot(0)] + [Do(EmitLog(LOG_B))];
    RunAppend(base, spare, t, [Snapshot] + actions, [RevertToSnapshot(1)]);
    assert t.cur.o.logs[|s.cur.o.logs|] == LOG_A;
  }

  lemma SpareFails(base: Base, spare: nat -> nat, m: nat)
    requires m > 0 && spare(m) > 0
    ensures !AlwaysRestores(base, spare, true)
  {
    var n := LeastSpare(spare, m);
    var emitted, s := EmitMany(base, spare, n);
    LateRevert(base, spare, s);
    var s1 := Act(base, spare, s, Snapshot).value;
    var t := Emit(spare, s1, LOG_A);
    RunOne(base, spare, s, Snapshot);
    RunOne(base, spare, s1, Do(EmitLog(LOG_A)));
    RunAppend(base, spare, START, emitted, [Snapshot]);
    RunAppend(base, spare, START, emitted + [Snapshot], [Do(EmitLog(LOG_A))]);
    assert Reached(base, spare, t);
  }

  /** Reverts always restore everything exactly when none in between goes further back, or append never leaves
      room to spare. */
  lemma RestoresExactly(base: Base, spare: nat -> nat, below: bool)
    ensures AlwaysRestores(base, spare, below) <==> !below || forall n :: n > 0 ==> spare(n) == 0
  {
    if !below {
      forall s, actions | Reached(base, spare, s) && NotBelow(actions, |s.snapshots|)
        ensures Restores(base, spare, s, actions)
      {
        var reach :| Run(base, spare, START, reach) == Some(s);
        RunPlaced(base, spare, reach);
        if Run(base, spare, s, [Snapshot] + actions).Some? {
          RevertRestores(base, spare, s, actions);
        }
      }
    } else if n :| n > 0 && spare(n) > 0 {
      SpareFails(base, spare, n);
    } else {
      forall s, actions | Reached(base, spare, s) ensures Restores(base, spare, s, actions) {
        FullRestores(base, spare, s, actions);
      }
    }
  }

  // ----- Runs on the plain world -----

  /** The same actions on the plain world, with whole worlds as snapshots. */
  datatype Plain = Plain(cur: World, snapshots: seq<World>)

  function ActPlain(p: Plain, action: Action): Option<Plain> {
    match action
    case Do(op) => Some(p.(cur := ApplyWorld(p.cur, op)))
    case Snapshot => Some(p.(snapshots := p.snapshots + [p.cur]))
    case RevertToSnapshot(id) => if id < |p.snapshots| then Some(p.(cur := p.snapshots[id])) else None
  }

  function RunPlain(p: Plain, actions: seq<Action>): Option<Plain> {
    if actions == [] then Some(p)
    else
      var before := RunPlain(p, actions[..|actions| - 1]);
      if before.None? then None else ActPlain(before.value, actions[|actions| - 1])
  }

  /** The world but for its logs. */
  predicate Like(w: World, w': World) {
    w.(logs := []) == w'.(logs := [])
  }

  /** The state reads as the plain one: with its logs for the current tree and the snapshots of the set, and up
      to the logs for the others. */
  ghost predicate ReadsAs(base: Base, s: State, p: Plain, logs: bool, live: set<nat>) {
    && |s.snapshots| == |p.snapshots|
    && Like(WorldOf(base, s.cur.o), p.cur) && (logs ==> WorldOf(base, s.cur.o) == p.cur)
    && (forall i :: 0 <= i < |s.snapshots| ==> Like(WorldOf(base, s.snapshots[i].o), p.snapshots[i]))
    && forall i :: i in live && i < |s.snapshots| ==> WorldOf(base, s.snapshots[i].o) == p.snapshots[i]
  }

  lemma LikeApply(w: World, w': World, op: Op)
    requires Like(w, w')
    ensures Like(ApplyWorld(w, op), ApplyWorld(w', op))
  {
    if op.CleanDeleteObjects? {
      assert Drop(w, op.deleteEmpty) == Drop(w', op.deleteEmpty);
    }
  }

  lemma LikeOverwritten(base: Base, v: Version, w: Version, log: Log)
    ensures Like(WorldOf(base, v.o), WorldOf(base, Overwritten(v, w, log).o))
  {
  }

  lemma DoReadsAs(base: Base, spare: nat -> nat, s: State, p: Plain, logs: bool, live: set<nat>, op: Op)
    requires ReadsAs(base, s, p, logs, live) && OnPath(s, live)
    ensures ReadsAs(base, Done(base, spare, s, op), p.(cur := ApplyWorld(p.cur, op)), logs, live)
  {
    var s' := Done(base, spare, s, op);
    DoneApplies(base, spare, s, op);
    DoneKeepsPath(base, spare, s, op, live);
    OverlayRefinesWorld(base, s.cur.o, op);
    LikeApply(WorldOf(base, s.cur.o), p.cur, op);
    forall i | 0 <= i < |s.snapshots| ensures Like(WorldOf(base, s'.snapshots[i].o), p.snapshots[i]) {
      if op.EmitLog? {
        LikeOverwritten(base, s.snapshots[i], s.cur, op.log);
      }
    }
  }

  lemma ActReadsAs(base: Base, spare: nat -> nat, s: State, p: Plain, logs: bool, live: set<nat>, action: Action)
    requires ReadsAs(base, s, p, logs, live) && OnPath(s, live)
    requires logs && action.RevertToSnapshot? ==> action.id in live
    ensures Act(base, spare, s, action).None? <==> ActPlain(p, action).None?
    ensures Act(base, spare, s, action).Some? ==>
      var live' := if logs && action.Snapshot? then live + {|s.snapshots|} else live;
      ReadsAs(base, Act(base, spare, s, action).value, ActPlain(p, action).value, logs, live')
  {
    if action.Do? {
      DoReadsAs(base, spare, s, p, logs, live, action.op);
    }
  }

  /** On every run accounts and refund are those of the same run on the plain world, panics included. */
  lemma {:induction false} RunRefinesPlain(base: Base, spare: nat -> nat, s: State, p: Plain, actions: seq<Action>)
    requires ReadsAs(base, s, p, false, {})
    ensures Run(base, spare, s, actions).None? <==> RunPlain(p, actions).None?
    ensures Run(base, spare, s, actions).Some? ==>
      ReadsAs(base, Run(base, spare, s, actions).value, RunPlain(p, actions).value, false, {})
  {
    if actions != [] {
      var init, last := actions[..|actions| - 1], actions[|actions| - 1];
      RunRefinesPlain(base, spare, s, p, init);
      if Run(base, spare, s, init).Some? {
        AnyActReadsAs(base, spare, Run(base, spare, s, init).value, RunPlain(p, init).value, last);
      }
    }
  }

  lemma AnyActReadsAs(base: Base, spare: nat -> nat, s: State, p: Plain, action: Action)
    requires ReadsAs(base, s, p, false, {})
    ensures Act(base, spare, s, action).None? <==> ActPlain(p, action).None?
    ensures Act(base, spare, s, action).Some? ==>
      ReadsAs(base, Act(base, spare, s, action).value, ActPlain(p, action).value, false, {})
  {
    if action.Do? {
      DoneApplies(base, spare, s, action.op);
      OverlayRefinesWorld(base, s.cur.o, action.op);
      LikeApply(WorldOf(base, s.cur.o), p.cur, action.op);
      var s' := Done(base, spare, s, action.op);
      forall i | 0 <= i < |s.snapshots| ensures Like(WorldOf(base, s'.snapshots[i].o), p.snapshots[i]) {
        if action.op.EmitLog? {
          LikeOverwritten(base, s.snapshots[i], s.cur, action.op.log);
        }
      }
    }
  }

  /** Reverts are nested: each goes to a snapshot that no revert has passed since it was taken. */
  ghost predicate Nested(count: nat, live: set<nat>, actions: seq<Action>)
    decreases |actions|
  {
    if actions == [] then true
    else match actions[0]
      case Do(_) => Nested(count, live, actions[1..])
      case Snapshot => Nested(count + 1, live + {count}, actions[1..])
      case RevertToSnapshot(id) => id in live && Nested(count, UpTo(live, id), actions[1..])
  }

  lemma RunFront(base: Base, spare: nat -> nat, s: State, actions: seq<Action>)
    requires actions != []
    ensures Run(base, spare, s, actions) ==
            var first := Act(base, spare, s, actions[0]);
            if first.None? then None else Run(base, spare, first.value, actions[1..])
  {
    RunOne(base, spare, s, actions[0]);
    assert actions == [actions[0]] + actions[1..];
    RunAppend(base, spare, s, [actions[0]], actions[1..]);
  }

  lemma {:induction false} RunPlainFront(p: Plain, actions: seq<Action>)
    requires actions != []
    ensures RunPlain(p, actions) ==
            var first := ActPlain(p, actions[0]);
            if first.None? then None else RunPlain(first.value, actions[1..])
    decreases |actions|
  {
    if |actions| > 1 {
      RunPlainFront(p, actions[..|actions| - 1]);
      assert actions[..|actions| - 1][1..] == actions[1..][..|actions| - 2];
    } else {
      assert actions[..0] == [] && actions[1..] == [];
    }
  }

  /** On every run with nested reverts the current state is that of the run on the plain world, logs included,
      and there is no panic. */
  lemma {:induction false} NestedRefinesPlain(base: Base, spare: nat -> nat, s: State, p: Plain, live: set<nat>,
                                              actions: seq<Action>)
    requires ReadsAs(base, s, p, true, live) && OnPath(s, live) && Nested(|s.snapshots|, live, actions)
    ensures Run(base, spare, s, actions).Some? && RunPlain(p, actions).Some?
    ensures WorldOf(base, Run(base, spare, s, actions).value.cur.o) == RunPlain(p, actions).value.cur
    decreases |actions|
  {
    if actions != [] {
      RunFront(base, spare, s, actions);
      RunPlainFront(p, actions);
      ActReadsAs(base, spare, s, p, true, live, actions[0]);
      var s', p' := Act(base, spare, s, actions[0]).value, ActPlain(p, actions[0]).value;
      match actions[0]
      case Do(op) =>
        DoneKeepsPath(base, spare, s, op, live);
        NestedRefinesPlain(base, spare, s', p', live, actions[1..]);
      case Snapshot =>
        SnapshotOnPath(base, spare, s, live);
        NestedRefinesPlain(base, spare, s', p', live + {|s.snapshots|}, actions[1..]);
      case RevertToSnapshot(id) =>
        RevertOnPath(base, spare, s, live, id);
        NestedRefinesPlain(base, spare, s', p', UpTo(live, id), actions[1..]);
    }
  }

  // ----- Commit -----

  /** The storage trie with the written slots applied: zero deletes, the rest is inserted. */
  function CommitStorage(obj: Object): map<Slot, Word> {
    map k | k in obj.account.storage.Keys + obj.dirty.Keys && !(k in obj.dirty && obj.dirty[k] == 0) ::
      if k in obj.dirty then obj.dirty[k] else obj.account.storage[k]
  }

  function CommitBase(base: Base, objects: map<Address, Object>): Base {
    map a | a in base.Keys + objects.Keys && !(a in objects && objects[a].deleted) ::
      if a in objects then objects[a].account.(storage := CommitStorage(objects[a])) else base[a]
  }

  /** What an account reads as in the next block: what was written is now committed. */
  function Settled(e: Entry): Entry {
    e.(committed := e.storage, suicide := false)
  }

  lemma StorageCommitted(obj: Object)
    ensures Nonzero(CommitStorage(obj)) == Nonzero(obj.account.storage + obj.dirty)
    ensures Nonzero(CommitStorage(obj) + map[]) == Nonzero(CommitStorage(obj))
  {
    assert CommitStorage(obj) + map[] == CommitStorage(obj);
  }

  lemma CommittedAt(base: Base, o: Overlay, deleteEmpty: bool, a: Address)
    ensures var base', w := CommitBase(base, Clean(o, deleteEmpty).objects), WorldOf(base, o);
      && (a in base' <==> a in w.accounts && !Dropped(w, a, deleteEmpty))
      && (a in base' ==> EntryOf(Object(base'[a], map[], false, false)) == Settled(w.accounts[a]))
  {
    AccountsAt(base, o.objects, a);
    var obj := LookupOrNew(base, o, a);
    StorageCommitted(obj);
  }

  function NextAccounts(w: World, deleteEmpty: bool): map<Address, Entry> {
    map a | a in w.accounts && !Dropped(w, a, deleteEmpty) :: Settled(w.accounts[a])
  }

  lemma NextAt(base: Base, o: Overlay, deleteEmpty: bool, a: Address)
    ensures var m := Accounts(CommitBase(base, Clean(o, deleteEmpty).objects), map[]);
      var n := NextAccounts(WorldOf(base, o), deleteEmpty);
      (a in m <==> a in n) && (a in m ==> m[a] == n[a])
  {
    CommittedAt(base, o, deleteEmpty, a);
    AccountsAt(CommitBase(base, Clean(o, deleteEmpty).objects), map[], a);
  }

  /** Committing yields a base whose reads are the overlay's reads, less the accounts that were touched and
      are suicided or, on request, empty. */
  lemma CommitReads(base: Base, o: Overlay, deleteEmpty: bool)
    ensures Accounts(CommitBase(base, Clean(o, deleteEmpty).objects), map[])
         == NextAccounts(WorldOf(base, o), deleteEmpty)
  {
    var m := Accounts(CommitBase(base, Clean(o, deleteEmpty).objects), map[]);
    var n := NextAccounts(WorldOf(base, o), deleteEmpty);
    forall a: Address ensures (a in m <==> a in n) && (a in m ==> m[a] == n[a]) {
      NextAt(base, o, deleteEmpty, a);
    }
    MapsEqual(m, n);
  }
}
