/** The Txn object of state/txn.go, with its state objects on the heap. Snapshots keep references to the
    same objects the current tree holds; they stay what they were because every setter changes a fresh copy.
    The log list is a slice of a buffer that snapshots share, and a log may be written there in place. */
module Txns {
  import opened Types
  import opened Journal
  import Refund

  class StateObject {
    var account: Account
    var dirty: map<Slot, Word>
    var suicide: bool
    var deleted: bool

    ghost function Value(): Object
      reads this
    {
      Object(account, dirty, suicide, deleted)
    }

    constructor (account: Account)
      ensures Value() == Object(account, map[], false, false)
    {
      this.account, dirty, suicide, deleted := account, map[], false, false;
    }

    method Copy() returns (c: StateObject)
      ensures fresh(c) && c.Value() == Value()
    {
      c := new StateObject(account);
      c.dirty, c.suicide, c.deleted := dirty, suicide, deleted;
    }

    predicate Empty()
      reads this
    {
      account.nonce == 0 && account.balance == 0 && account.codeHash == EMPTY_CODE_HASH
    }
  }

  /** A log list: the first len cells of a numbered buffer. The length of the buffer is the capacity. */
  datatype Slice = Slice(block: nat, len: nat)

  /** What the radix tree holds: objects by address, the logs and the refund. */
  datatype Tree = Tree(objects: map<Address, StateObject>, logs: Option<Slice>, refund: int)

  type Buffers = seq<seq<Log>>

  predicate Within(logs: Option<Slice>, buffers: Buffers) {
    logs.Some? ==> logs.value.block < |buffers| && logs.value.len <= |buffers[logs.value.block]|
  }

  function LogsIn(logs: Option<Slice>, buffers: Buffers): seq<Log> {
    if logs.Some? && Within(logs, buffers) then buffers[logs.value.block][..logs.value.len] else []
  }

  function Place(o: Overlay, logs: Option<Slice>, buffers: Buffers): Version {
    if logs.Some? && Within(logs, buffers) then Version(o, Some(logs.value.block), |buffers[logs.value.block]|)
    else Version(o, None, 0)
  }

  ghost function VersionOf(t: Tree, buffers: Buffers): Version
    reads t.objects.Values
  {
    Place(Overlay(map a | a in t.objects :: t.objects[a].Value(), LogsIn(t.logs, buffers), t.refund), t.logs, buffers)
  }

  /** What a list reads as once a log is written into cell n of a buffer. */
  lemma WrittenThrough(logs: Option<Slice>, buffers: Buffers, block: nat, n: nat, log: Log)
    requires Within(logs, buffers) && block < |buffers| && n < |buffers[block]|
    ensures var after := buffers[block := buffers[block][n := log]];
            && Within(logs, after)
            && LogsIn(logs, after) == if logs.Some? && logs.value.block == block && n < logs.value.len
                                      then LogsIn(logs, buffers)[n := log] else LogsIn(logs, buffers)
  {
  }

  function WithOverlay(s: State, o: Overlay): State {
    s.(cur := s.cur.(o := o))
  }

  function WithRefund(s: State, refund: int): State {
    WithOverlay(s, s.cur.o.(refund := refund))
  }

  /** Nothing but what the current tree holds differs. */
  ghost predicate SameButOverlay(s: State, t: State) {
    s == WithOverlay(t, s.cur.o)
  }

  class Txn {
    const base: Base
    /** How much room append leaves when it makes an array for so many logs. */
    const spare: nat -> nat
    var tree: Tree
    var snapshots: seq<Tree>
    /** The arrays that append has made for log lists. */
    var buffers: Buffers

    ghost predicate Valid()
      reads `tree, `snapshots, `buffers
    {
      Within(tree.logs, buffers) && forall i :: 0 <= i < |snapshots| ==> Within(snapshots[i].logs, buffers)
    }

    ghost function Objects(): set<StateObject>
      reads this
    {
      tree.objects.Values + set i, o | 0 <= i < |snapshots| && o in snapshots[i].objects.Values :: o
    }

    ghost function Abs(): State
      reads this, Objects()
    {
      State(VersionOf(tree, buffers),
            seq(|snapshots|, i requires 0 <= i < |snapshots| reads this, Objects() =>
                  VersionOf(snapshots[i], buffers)),
            |buffers|)
    }

    ghost function World(): World
      reads this, Objects()
    {
      WorldOf(base, Abs().cur.o)
    }

    constructor (base: Base, spare: nat -> nat)
      ensures this.base == base && this.spare == spare && Valid() && Abs() == START
    {
      this.base, this.spare, tree, snapshots, buffers := base, spare, Tree(map[], None, 0), [], [];
    }

    // ----- Reads -----

    /** A fresh copy of the account's object, so that the caller may change it. */
    method GetStateObject(a: Address) returns (obj: Option<StateObject>)
      ensures Abs() == old(Abs())
      ensures obj.Some? <==> Lookup(base, Abs().cur.o.objects, a).Some?
      ensures obj.Some? ==> fresh(obj.value) && obj.value !in Objects()
      ensures obj.Some? ==> obj.value.Value() == Lookup(base, Abs().cur.o.objects, a).value
    {
      if a in tree.objects {
        if tree.objects[a].deleted {
          return None;
        }
        var c := tree.objects[a].Copy();
        return Some(c);
      }
      if a !in base {
        return None;
      }
      var c := new StateObject(base[a]);
      return Some(c);
    }

    method GetBalance(a: Address) returns (balance: nat)
      ensures Abs() == old(Abs())
      ensures balance == EntryOrNew(World(), a).balance == Balance(base, Abs().cur.o, a)
    {
      WorldAt(base, Abs().cur.o, a);
      var obj := GetStateObject(a);
      return if obj.None? then 0 else obj.value.account.balance;
    }

    method GetNonce(a: Address) returns (nonce: nat)
      ensures Abs() == old(Abs())
      ensures nonce == EntryOrNew(World(), a).nonce
    {
      WorldAt(base, Abs().cur.o, a);
      var obj := GetStateObject(a);
      return if obj.None? then 0 else obj.value.account.nonce;
    }

    method GetCodeHash(a: Address) returns (codeHash: nat)
      ensures Abs() == old(Abs())
      ensures codeHash == if a in World().accounts then World().accounts[a].codeHash else ZERO_HASH
    {
      WorldAt(base, Abs().cur.o, a);
      var obj := GetStateObject(a);
      return if obj.None? then ZERO_HASH else obj.value.account.codeHash;
    }

    method HasSuicided(a: Address) returns (suicided: bool)
      ensures Abs() == old(Abs())
      ensures suicided == EntryOrNew(World(), a).suicide
    {
      WorldAt(base, Abs().cur.o, a);
      var obj := GetStateObject(a);
      return obj.Some? && obj.value.suicide;
    }

    method GetRefund() returns (refund: int)
      ensures refund == Abs().cur.o.refund
    {
      return tree.refund;
    }

    method GetState(a: Address, key: Slot) returns (value: Word)
      ensures Abs() == old(Abs())
      ensures value == Refund.Read(EntryOrNew(World(), a).storage, key)
    {
      WorldAt(base, Abs().cur.o, a);
      var obj := GetStateObject(a);
      if obj.None? {
        return 0;
      }
      if key in obj.value.dirty {
        return obj.value.dirty[key];
      }
      return Refund.Read(obj.value.account.storage, key);
    }

    method GetCommittedState(a: Address, key: Slot) returns (value: Word)
      ensures Abs() == old(Abs())
      ensures value == Refund.Read(EntryOrNew(World(), a).committed, key)
    {
      WorldAt(base, Abs().cur.o, a);
      var obj := GetStateObject(a);
      return if obj.None? then 0 else Refund.Read(obj.value.account.storage, key);
    }

    // ----- Writes -----

    method GetOrCreate(a: Address) returns (obj: StateObject)
      ensures Abs() == old(Abs())
      ensures fresh(obj) && obj !in Objects() && obj.Value() == LookupOrNew(base, Abs().cur.o, a)
    {
      var found := GetStateObject(a);
      if found.Some? {
        return found.value;
      }
      obj := new StateObject(NEW_OBJECT.account);
    }

    method Store(a: Address, obj: StateObject)
      modifies `tree
      ensures tree.logs == old(tree.logs)
      ensures Abs() == old(Abs()).(cur := old(Abs()).cur.(o := Insert(old(Abs()).cur.o, a, obj.Value())))
    {
      tree := tree.(objects := tree.objects[a := obj]);
      assert VersionOf(tree, buffers).o.objects == old(VersionOf(tree, buffers)).o.objects[a := obj.Value()];
    }

    /** Puts in the changed object of an account, as an operation on it does. */
    method Put(a: Address, obj: StateObject, ghost before: State, ghost op: Op)
      requires Abs() == before && OnAccount(op) && op.a == a && !Skipped(base, before.cur.o, op)
      requires obj.Value() == UpdateObject(LookupOrNew(base, before.cur.o, a), op)
      modifies `tree
      ensures tree.logs == old(tree.logs) && Abs() == Done(base, spare, before, op)
    {
      Store(a, obj);
    }

    method AddBalance(a: Address, amount: nat)
      modifies `tree
      ensures tree.logs == old(tree.logs) && Abs() == Done(base, spare, old(Abs()), Op.AddBalance(a, amount))
    {
      var obj := GetOrCreate(a);
      obj.account := obj.account.(balance := obj.account.balance + amount);
      Put(a, obj, old(Abs()), Op.AddBalance(a, amount));
    }

    method AddSealingReward(a: Address, amount: nat)
      modifies `tree
      ensures tree.logs == old(tree.logs) && Abs() == Done(base, spare, old(Abs()), Op.AddSealingReward(a, amount))
    {
      var obj := GetOrCreate(a);
      if obj.suicide {
        obj := new StateObject(NEW_OBJECT.account.(balance := amount));
      } else {
        obj.account := obj.account.(balance := obj.account.balance + amount);
      }
      Put(a, obj, old(Abs()), Op.AddSealingReward(a, amount));
    }

    /** Returns whether the balance was enough. */
    method SubBalance(a: Address, amount: nat) returns (ok: bool)
      modifies `tree
      ensures ok <==> amount <= Balance(base, old(Abs()).cur.o, a)
      ensures tree.logs == old(tree.logs) && Abs() == Done(base, spare, old(Abs()), Op.SubBalance(a, amount))
    {
      if amount == 0 {
        return true;
      }
      var balance := GetBalance(a);
      if balance < amount {
        return false;
      }
      var obj := GetOrCreate(a);
      obj.account := obj.account.(balance := obj.account.balance - amount);
      Put(a, obj, old(Abs()), Op.SubBalance(a, amount));
      return true;
    }

    method SetBalance(a: Address, amount: nat)
      modifies `tree
      ensures tree.logs == old(tree.logs) && Abs() == Done(base, spare, old(Abs()), Op.SetBalance(a, amount))
    {
      var obj := GetOrCreate(a);
      obj.account := obj.account.(balance := amount);
      Put(a, obj, old(Abs()), Op.SetBalance(a, amount));
    }

    method IncrNonce(a: Address)
      modifies `tree
      ensures tree.logs == old(tree.logs) && Abs() == Done(base, spare, old(Abs()), Op.IncrNonce(a))
    {
      var obj := GetOrCreate(a);
      obj.account := obj.account.(nonce := obj.account.nonce + 1);
      Put(a, obj, old(Abs()), Op.IncrNonce(a));
    }

    method SetNonce(a: Address, nonce: nat)
      modifies `tree
      ensures tree.logs == old(tree.logs) && Abs() == Done(base, spare, old(Abs()), Op.SetNonce(a, nonce))
    {
      var obj := GetOrCreate(a);
      obj.account := obj.account.(nonce := nonce);
      Put(a, obj, old(Abs()), Op.SetNonce(a, nonce));
    }

    method SetCode(a: Address, codeHash: nat)
      modifies `tree
      ensures tree.logs == old(tree.logs) && Abs() == Done(base, spare, old(Abs()), Op.SetCode(a, codeHash))
    {
      var obj := GetOrCreate(a);
      obj.account := obj.account.(codeHash := codeHash);
      Put(a, obj, old(Abs()), Op.SetCode(a, codeHash));
    }

    method SetState(a: Address, key: Slot, value: Word)
      modifies `tree
      ensures tree.logs == old(tree.logs) && Abs() == Done(base, spare, old(Abs()), Op.SetState(a, key, value))
    {
      var obj := GetOrCreate(a);
      obj.dirty := obj.dirty[key := value];
      Put(a, obj, old(Abs()), Op.SetState(a, key, value));
    }

    /** Returns whether the account existed and was not suicided before. */
    method Suicide(a: Address) returns (suicided: bool)
      modifies `tree
      ensures suicided <==> old(var obj := Lookup(base, Abs().cur.o.objects, a); obj.Some? && !obj.value.suicide)
      ensures tree.logs == old(tree.logs) && Abs() == Done(base, spare, old(Abs()), Op.Suicide(a))
    {
      var found := GetStateObject(a);
      if found.None? {
        return false;
      }
      var obj := found.value;
      suicided := !obj.suicide;
      obj.suicide := true;
      obj.account := obj.account.(balance := 0);
      Put(a, obj, old(Abs()), Op.Suicide(a));
    }

    method TouchAccount(a: Address)
      modifies `tree
      ensures tree.logs == old(tree.logs) && Abs() == Done(base, spare, old(Abs()), Op.TouchAccount(a))
    {
      var obj := GetOrCreate(a);
      Put(a, obj, old(Abs()), Op.TouchAccount(a));
    }

    method CreateAccount(a: Address)
      modifies `tree
      ensures tree.logs == old(tree.logs) && Abs() == Done(base, spare, old(Abs()), Op.CreateAccount(a))
    {
      var prev := GetStateObject(a);
      var balance := if prev.Some? then prev.value.account.balance else 0;
      var obj := new StateObject(NEW_OBJECT.account.(balance := balance));
      Put(a, obj, old(Abs()), Op.CreateAccount(a));
    }

    /** append of the runtime on the list in the tree: in place while there is room, else into a larger buffer. */
    method EmitLog(log: Log)
      requires Valid()
      modifies `tree, `buffers
      ensures Valid() && Abs() == Done(base, spare, old(Abs()), Op.EmitLog(log))
    {
      var n := if tree.logs.Some? then tree.logs.value.len else 0;
      if tree.logs.Some? && n < |buffers[tree.logs.value.block]| {
        AppendInPlace(log);
      } else {
        AppendToCopy(log, n);
      }
    }

    method AppendInPlace(log: Log)
      requires Valid() && tree.logs.Some? && tree.logs.value.len < |buffers[tree.logs.value.block]|
      modifies `tree, `buffers
      ensures Valid() && Abs() == Emit(spare, old(Abs()), log)
    {
      var block, n := tree.logs.value.block, tree.logs.value.len;
      ghost var before := buffers;
      buffers := buffers[block := buffers[block][n := log]];
      tree := tree.(logs := Some(Slice(block, n + 1)));
      assert buffers[block][..n + 1] == before[block][..n] + [log];
      forall i | 0 <= i < |snapshots|
        ensures VersionOf(snapshots[i], buffers) ==
                Overwritten(old(VersionOf(snapshots[i], buffers)), old(VersionOf(tree, buffers)), log)
      {
        WrittenThrough(snapshots[i].logs, before, block, n, log);
      }
      assert Abs().snapshots == Emit(spare, old(Abs()), log).snapshots;
    }

    method AppendToCopy(log: Log, n: nat)
      requires Valid() && n == |LogsIn(tree.logs, buffers)|
      requires tree.logs.Some? ==> n == |buffers[tree.logs.value.block]|
      modifies `tree, `buffers
      ensures Valid() && Abs() == Emit(spare, old(Abs()), log)
    {
      var logs := if tree.logs.Some? then buffers[tree.logs.value.block][..n] else [];
      var cells := logs + seq(1 + spare(n + 1), i => log);
      tree := tree.(logs := Some(Slice(|buffers|, n + 1)));
      buffers := buffers + [cells];
      assert cells[..n + 1] == logs + [log];
      assert Abs().snapshots == old(Abs()).snapshots;
    }

    method Logs() returns (logs: seq<Log>)
      requires Valid()
      modifies `tree
      ensures logs == old(Abs()).cur.o.logs
      ensures Valid() && Abs() == Done(base, spare, old(Abs()), Op.TakeLogs)
    {
      logs := if tree.logs.Some? then buffers[tree.logs.value.block][..tree.logs.value.len] else [];
      tree := tree.(logs := None);
    }

    method AddRefund(gas: nat)
      modifies `tree
      ensures tree.logs == old(tree.logs) && Abs() == Done(base, spare, old(Abs()), Op.AddRefund(gas))
      ensures Abs() == WithRefund(old(Abs()), old(Abs()).cur.o.refund + gas)
    {
      tree := tree.(refund := tree.refund + gas);
    }

    method SubRefund(gas: nat)
      modifies `tree
      ensures tree.logs == old(tree.logs) && Abs() == Done(base, spare, old(Abs()), Op.SubRefund(gas))
      ensures Abs() == WithRefund(old(Abs()), old(Abs()).cur.o.refund - gas)
    {
      tree := tree.(refund := tree.refund - gas);
    }

    /** Counts the refund of a storage write that was made. */
    method CountRefund(original: Word, current: Word, value: Word, forks: Refund.Forks)
      returns (status: Refund.StorageStatus)
      requires current != value
      modifies `tree
      ensures status == Refund.Status(original, current, value, forks)
      ensures tree.logs == old(tree.logs)
      ensures Abs() == WithRefund(old(Abs()), old(Abs()).cur.o.refund + Refund.Delta(original, current, value, forks))
    {
      if forks.Legacy() {
        if current == 0 {
          return Refund.Added;
        } else if value == 0 {
          AddRefund(15000);
          return Refund.Deleted;
        }
        return Refund.Modified;
      }
      if original == current {
        if original == 0 {
          return Refund.Added;
        }
        if value == 0 {
          AddRefund(15000);
          return Refund.Deleted;
        }
        return Refund.Modified;
      }
      if original != 0 {
        if current == 0 {
          SubRefund(15000);
        } else if value == 0 {
          AddRefund(15000);
        }
      }
      if original == value {
        if original == 0 {
          AddRefund(if forks.istanbul then 19200 else 19800);
        } else {
          AddRefund(if forks.istanbul then 4200 else 4800);
        }
      }
      return Refund.ModifiedAgain;
    }

    /** Writes a slot whose value changes. */
    method WriteSlot(a: Address, key: Slot, value: Word, forks: Refund.Forks, current: Word)
        returns (status: Refund.StorageStatus)
      requires current == Refund.Storage(World(), a, key) != value
      modifies `tree
      ensures tree.logs == old(tree.logs)
      ensures status == Refund.Status(Refund.Original(old(World()), a, key), current, value, forks)
      ensures Abs() == WithRefund(Done(base, spare, old(Abs()), Op.SetState(a, key, value)),
                                  old(Abs()).cur.o.refund + Refund.Change(old(World()), a, key, value, forks))
    {
      var original := GetCommittedState(a, key);
      SlotWriteKeeps(base, spare, Abs(), a, key, value);
      SetState(a, key, value);
      status := CountRefund(original, current, value, forks);
    }

    /** Writes a slot and counts its refund. */
    method SetStorage(a: Address, key: Slot, value: Word, forks: Refund.Forks) returns (status: Refund.StorageStatus)
      modifies `tree
      ensures tree.logs == old(tree.logs) && SameButOverlay(Abs(), old(Abs()))
      ensures Abs().cur.o.logs == old(Abs()).cur.o.logs
      ensures World() == Refund.SetStorage(old(World()), a, key, value, forks)
      ensures status ==
        Refund.Status(Refund.Original(old(World()), a, key), Refund.Storage(old(World()), a, key), value, forks)
    {
      var current := GetState(a, key);
      if current == value {
        return Refund.Unchanged;
      }
      status := WriteSlot(a, key, value, forks, current);
      StorageRefines(base, old(Abs()).cur.o, a, key, value, forks);
    }

    // ----- Snapshots -----

    method Snapshot() returns (id: nat)
      modifies `snapshots
      ensures id == |old(Abs()).snapshots| && (old(Valid()) ==> Valid())
      ensures Some(Abs()) == Act(base, spare, old(Abs()), Action.Snapshot)
    {
      id := |snapshots|;
      snapshots := snapshots + [tree];
      assert Abs().snapshots == old(Abs()).snapshots + [old(Abs()).cur];
    }

    method RevertToSnapshot(id: nat)
      requires id < |snapshots|
      modifies `tree
      ensures old(Valid()) ==> Valid()
      ensures Some(Abs()) == Act(base, spare, old(Abs()), Action.RevertToSnapshot(id))
    {
      tree := snapshots[id];
      assert Abs().cur == old(Abs()).snapshots[id];
      assert Abs().snapshots == old(Abs()).snapshots;
    }

    // ----- End of a transaction and of a block -----

    method FindRemovable(deleteEmpty: bool) returns (remove: set<Address>)
      ensures Abs() == old(Abs())
      ensures remove == RemovableObjects(Abs().cur.o, deleteEmpty)
    {
      remove := set a | a in tree.objects && (tree.objects[a].suicide || (tree.objects[a].Empty() && deleteEmpty));
    }

    method MarkDeleted(a: Address)
      requires a in tree.objects
      modifies `tree
      ensures tree.logs == old(tree.logs)
      ensures var o := old(Abs()).cur.o;
        Abs() == WithOverlay(old(Abs()), Insert(o, a, o.objects[a].(deleted := true)))
    {
      var obj := tree.objects[a].Copy();
      assert obj !in Objects();
      obj.deleted := true;
      Store(a, obj);
    }

    method CleanDeleteObjects(deleteEmpty: bool)
      modifies `tree
      ensures tree.logs == old(tree.logs) && Abs() == Done(base, spare, old(Abs()), Op.CleanDeleteObjects(deleteEmpty))
    {
      ghost var before, o := Abs(), Abs().cur.o;
      var remove := FindRemovable(deleteEmpty);
      CleanBegins(o, deleteEmpty);
      while remove != {}
        invariant tree.logs == old(tree.logs) && Abs() == WithOverlay(before, CleanExcept(o, deleteEmpty, remove))
        invariant remove <= RemovableObjects(o, deleteEmpty)
      {
        var a :| a in remove;
        CleanStep(o, deleteEmpty, remove, a);
        MarkDeleted(a);
        remove := remove - {a};
      }
      ClearRefund();
      CleanEnds(o, deleteEmpty);
    }

    method ClearRefund()
      modifies `tree
      ensures tree.logs == old(tree.logs) && Abs() == WithRefund(old(Abs()), 0)
    {
      tree := tree.(refund := 0);
    }

    method Values() returns (objects: map<Address, Object>)
      ensures objects == Abs().cur.o.objects
    {
      objects := map a | a in tree.objects ::
        Object(tree.objects[a].account, tree.objects[a].dirty, tree.objects[a].suicide, tree.objects[a].deleted);
    }

    /** The base for the next block; CommitReads says what it reads as. */
    method Commit(deleteEmpty: bool) returns (next: Base)
      modifies `tree
      ensures next == CommitBase(base, Clean(old(Abs()).cur.o, deleteEmpty).objects)
    {
      ghost var o := Abs().cur.o;
      CleanDeleteObjects(deleteEmpty);
      assert Abs().cur.o.objects == Clean(o, deleteEmpty).objects;
      var objects := Values();
      next := CommitObjects(base, objects);
    }
  }

  /** The refund counter of a transaction on this object never wraps, exactly when it covers the slots that were
      zeroed before or the legacy rules apply. */
  lemma TxnNeverWrapsExactly(t: Txn, forks: Refund.Forks)
    requires t.Abs().cur.o.refund >= 0
    ensures Refund.NeverWraps(t.World(), forks) <==>
            forks.Legacy() || t.Abs().cur.o.refund >= Refund.CLEAR * |Refund.Zeroed(t.World())|
  {
    Refund.WorldIsTidy(t.base, t.Abs().cur.o);
    Refund.NeverWrapsExactly(t.World(), forks);
  }

  /** The slots of one account, written into its trie one by one. */
  method CommitSlots(obj: Object) returns (storage: map<Slot, Word>)
    ensures storage == CommitStorage(obj)
  {
    storage := obj.account.storage;
    var left := obj.dirty.Keys;
    while left != {}
      invariant left <= obj.dirty.Keys
      invariant forall k :: k in storage <==>
        if k in obj.dirty && k !in left then obj.dirty[k] != 0 else k in obj.account.storage
      invariant forall k :: k in storage ==>
        storage[k] == if k in obj.dirty && k !in left then obj.dirty[k] else obj.account.storage[k]
    {
      var k :| k in left;
      storage := if obj.dirty[k] == 0 then storage - {k} else storage[k := obj.dirty[k]];
      left := left - {k};
    }
    MapsEqual(storage, CommitStorage(obj));
  }

  /** The objects of the overlay, written into the account trie one by one. */
  method CommitObjects(base: Base, objects: map<Address, Object>) returns (r: Base)
    ensures r == CommitBase(base, objects)
  {
    r := base;
    var left := objects.Keys;
    while left != {}
      invariant left <= objects.Keys
      invariant forall a :: a in r <==>
        if a in objects && a !in left then !objects[a].deleted else a in base
      invariant forall a :: a in r ==>
        r[a] ==
          if a in objects && a !in left then objects[a].account.(storage := CommitStorage(objects[a])) else base[a]
    {
      var a :| a in left;
      if objects[a].deleted {
        r := r - {a};
      } else {
        var storage := CommitSlots(objects[a]);
        r := r[a := objects[a].account.(storage := storage)];
      }
      left := left - {a};
    }
    MapsEqual(r, CommitBase(base, objects));
  }

  ghost function RemovableObjects(o: Overlay, deleteEmpty: bool): set<Address> {
    set a | a in o.objects && Removable(o.objects[a], deleteEmpty)
  }

  /** The overlay with every removable object marked, except the ones left to do. */
  ghost function CleanExcept(o: Overlay, deleteEmpty: bool, left: set<Address>): Overlay {
    o.(objects := map a | a in o.objects ::
         if Removable(o.objects[a], deleteEmpty) && a !in left then o.objects[a].(deleted := true) else o.objects[a])
  }

  lemma CleanBegins(o: Overlay, deleteEmpty: bool)
    ensures CleanExcept(o, deleteEmpty, RemovableObjects(o, deleteEmpty)) == o
  {
  }

  lemma CleanStep(o: Overlay, deleteEmpty: bool, left: set<Address>, a: Address)
    requires a in left && left <= RemovableObjects(o, deleteEmpty)
    ensures var c := CleanExcept(o, deleteEmpty, left);
      Insert(c, a, c.objects[a].(deleted := true)) == CleanExcept(o, deleteEmpty, left - {a})
  {
  }

  lemma CleanEnds(o: Overlay, deleteEmpty: bool)
    ensures CleanExcept(o, deleteEmpty, {}).(refund := 0) == Clean(o, deleteEmpty)
  {
    assert CleanExcept(o, deleteEmpty, {}).objects == Clean(o, deleteEmpty).objects;
  }

  lemma SlotWriteKeeps(base: Base, spare: nat -> nat, s: State, a: Address, key: Slot, value: Word)
    ensures var s' := Done(base, spare, s, Op.SetState(a, key, value));
      s' == WithOverlay(s, s'.cur.o) && s'.cur.o.refund == s.cur.o.refund && s'.cur.o.logs == s.cur.o.logs
  {
  }

  lemma StorageRefines(base: Base, o: Overlay, a: Address, key: Slot, value: Word, forks: Refund.Forks)
    requires Refund.Storage(WorldOf(base, o), a, key) != value
    ensures var w := WorldOf(base, o);
      var o' := Apply(base, o, Op.SetState(a, key, value));
      WorldOf(base, o'.(refund := o.refund + Refund.Change(w, a, key, value, forks)))
        == Refund.SetStorage(w, a, key, value, forks)
  {
    OverlayRefinesWorld(base, o, Op.SetState(a, key, value));
  }
}
