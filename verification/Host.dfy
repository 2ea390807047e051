/** Transfers, calls and creations of state/executor.go on the journal itself: each method takes snapshots and
    reverts to them by number, and what the journal then reads as is what module Calls says. */
module Host {
  import opened Types
  import opened Journal
  import opened Calls
  import opened Txns
  import Refund

  /** The object stands for s, and the given snapshots lie on the way to it. */
  ghost predicate At(t: Txn, s: State, live: set<nat>)
    reads t, t.Objects()
  {
    t.Valid() && t.Abs() == s && OnPath(s, live)
  }

  ghost function Reads(t: Txn, s: State): World {
    WorldOf(t.base, s.cur.o)
  }

  lemma ValidIsOnPath(t: Txn)
    requires t.Valid()
    ensures OnPath(t.Abs(), {})
  {
  }

  lemma Step(t: Txn, s: State, op: Op, live: set<nat>)
    requires OnPath(s, live)
    ensures var s' := Done(t.base, t.spare, s, op);
      OnPath(s', live) && Keeps(s, s', live) && Reads(t, s') == ApplyWorld(Reads(t, s), op)
  {
    DoneKeepsPath(t.base, t.spare, s, op, live);
    DoneApplies(t.base, t.spare, s, op);
    OverlayRefinesWorld(t.base, s.cur.o, op);
  }

  lemma KeepsTrans(s: State, s1: State, s2: State, live: set<nat>)
    requires OnPath(s, live) && Keeps(s, s1, live) && Keeps(s1, s2, live)
    ensures Keeps(s, s2, live)
  {
  }

  /** transfer */
  method DoTransfer(t: Txn, from: Address, to: Address, amount: nat, ghost s: State, ghost live: set<nat>)
      returns (ok: bool, ghost s': State)
    requires At(t, s, live)
    modifies t
    ensures At(t, s', live) && Keeps(s, s', live)
    ensures ok <==> Transfer(Reads(t, s), from, to, amount).Some?
    ensures Reads(t, s') == if ok then Transfer(Reads(t, s), from, to, amount).value else Reads(t, s)
  {
    Step(t, s, Op.SubBalance(from, amount), live);
    WorldAt(t.base, s.cur.o, from);
    ok := t.SubBalance(from, amount);
    s' := Done(t.base, t.spare, s, Op.SubBalance(from, amount));
    if ok {
      Step(t, s', Op.AddBalance(to, amount), live);
      t.AddBalance(to, amount);
      s' := Done(t.base, t.spare, s', Op.AddBalance(to, amount));
    }
  }

  /** Selfdestruct */
  method DoDestroy(t: Txn, a: Address, beneficiary: Address, ghost s: State, ghost live: set<nat>, ghost burnt: nat)
      returns (ghost s': State)
    requires At(t, s, live)
    modifies t
    ensures At(t, s', live) && Keeps(s, s', live)
    ensures Reads(t, s') == Destroy(S(Reads(t, s), burnt), a, beneficiary).w
  {
    s' := s;
    var suicided := t.HasSuicided(a);
    if !suicided {
      Step(t, s, Op.AddRefund(24000), live);
      t.AddRefund(24000);
      s' := Done(t.base, t.spare, s, Op.AddRefund(24000));
    }
    var balance := t.GetBalance(a);
    Step(t, s', Op.AddBalance(beneficiary, balance), live);
    t.AddBalance(beneficiary, balance);
    s' := Done(t.base, t.spare, s', Op.AddBalance(beneficiary, balance));
    Step(t, s', Op.Suicide(a), live);
    var _ := t.Suicide(a);
    s' := Done(t.base, t.spare, s', Op.Suicide(a));
  }

  /** SetStorage */
  method DoStore(t: Txn, a: Address, key: Slot, value: Word, forks: Refund.Forks, ghost s: State, ghost live: set<nat>)
      returns (ghost s': State)
    requires At(t, s, live)
    modifies t
    ensures At(t, s', live) && Keeps(s, s', live)
    ensures Reads(t, s') == Refund.SetStorage(Reads(t, s), a, key, value, forks)
  {
    var _ := t.SetStorage(a, key, value, forks);
    s' := t.Abs();
    OverlayKeepsPath(s, s', live);
  }

  /** A change that leaves the logs leaves the snapshots on the path. */
  lemma OverlayKeepsPath(s: State, s': State, live: set<nat>)
    requires OnPath(s, live) && SameButOverlay(s', s) && s'.cur.o.logs == s.cur.o.logs
    ensures OnPath(s', live) && Keeps(s, s', live)
  {
  }

  method DoEmit(t: Txn, log: Log, ghost s: State, ghost live: set<nat>) returns (ghost s': State)
    requires At(t, s, live)
    modifies t
    ensures At(t, s', live) && Keeps(s, s', live) && Reads(t, s') == ApplyWorld(Reads(t, s), EmitLog(log))
  {
    Step(t, s, Op.EmitLog(log), live);
    t.EmitLog(log);
    s' := Done(t.base, t.spare, s, Op.EmitLog(log));
  }

  method DoSnapshot(t: Txn, ghost s: State, ghost live: set<nat>) returns (id: nat, ghost s': State)
    requires At(t, s, live)
    modifies t
    ensures At(t, s', live + {id}) && Keeps(s, s', live) && Reads(t, s') == Reads(t, s)
    ensures id == |s.snapshots| && s'.snapshots == s.snapshots + [s.cur] && s'.cur == s.cur
  {
    SnapshotOnPath(t.base, t.spare, s, live);
    id := t.Snapshot();
    s' := Act(t.base, t.spare, s, Action.Snapshot).value;
  }

  /** A revert to a snapshot that was kept since the journal stood at s. */
  method DoRevert(t: Txn, id: nat, ghost s: State, ghost now: State, ghost live: set<nat>) returns (ghost s': State)
    requires OnPath(s, live) && id == |s.snapshots| < |now.snapshots| && now.snapshots[id] == s.cur
    requires At(t, now, live + {id}) && Keeps(s, now, live)
    modifies t
    ensures At(t, s', live) && Keeps(s, s', live) && s'.cur == s.cur
  {
    RevertOnPath(t.base, t.spare, now, live + {id}, id);
    t.RevertToSnapshot(id);
    s' := Act(t.base, t.spare, now, Action.RevertToSnapshot(id)).value;
    assert forall i :: i in live ==> i in UpTo(live + {id}, id);
  }

  method DoRunOps(t: Txn, config: Config, self: Address, depth: nat, ops: seq<HostOp>,
                  ghost s: State, ghost live: set<nat>, ghost burnt: nat)
      returns (ghost s': State, ghost burnt': nat)
    requires At(t, s, live)
    modifies t
    ensures At(t, s', live) && Keeps(s, s', live)
    ensures S(Reads(t, s'), burnt') == RunOps(config, S(Reads(t, s), burnt), self, depth, ops)
    decreases ops, 0
  {
    if ops == [] {
      return s, burnt;
    }
    ghost var s1, burnt1;
    s1, burnt1 := DoRunOp(t, config, self, depth, ops[0], s, live, burnt);
    s', burnt' := DoRunOps(t, config, self, depth, ops[1..], s1, live, burnt1);
    KeepsTrans(s, s1, s', live);
  }

  method DoRunOp(t: Txn, config: Config, self: Address, depth: nat, op: HostOp,
                 ghost s: State, ghost live: set<nat>, ghost burnt: nat)
      returns (ghost s': State, ghost burnt': nat)
    requires At(t, s, live)
    modifies t
    ensures At(t, s', live) && Keeps(s, s', live)
    ensures S(Reads(t, s'), burnt') == RunOp(config, S(Reads(t, s), burnt), self, depth, op)
    decreases op, 0
  {
    burnt' := RunOp(config, S(Reads(t, s), burnt), self, depth, op).burnt;
    match op
    case Store(key, value) => s' := DoStore(t, self, key, value, config.refunds, s, live);
    case Emit(topics, data) => s' := DoEmit(t, Log(self, topics, data), s, live);
    case SelfDestruct(beneficiary) => s' := DoDestroy(t, self, beneficiary, s, live, burnt);
    case CallOut(kind, to, amount, gas, code) =>
      var at := if kind.Call? || kind.StaticCall? then to else self;
      var result;
      result, s', burnt' := DoApplyCall(t, config, kind, self, at, to, amount, gas, depth + 1, code, s, live, burnt);
    case CreateOut(address, amount, gas, init) =>
      var result;
      result, s', burnt' := DoApplyCreate(t, config, self, address, amount, gas, depth + 1, init, s, live, burnt);
  }

  /** What applyCall does before the code runs. */
  method StartCall(t: Txn, kind: CallType, caller: Address, at: Address, amount: nat, ghost s: State,
                   ghost live: set<nat>)
      returns (ok: bool, ghost s': State)
    requires At(t, s, live)
    modifies t
    ensures At(t, s', live) && Keeps(s, s', live)
    ensures var touched := ApplyWorld(Reads(t, s), TouchAccount(at));
            var moved := if kind.Call? then Transfer(touched, caller, at, amount) else Some(touched);
            (ok <==> moved.Some?) && Reads(t, s') == if ok then moved.value else touched
  {
    Step(t, s, Op.TouchAccount(at), live);
    t.TouchAccount(at);
    s' := Done(t.base, t.spare, s, Op.TouchAccount(at));
    ok := true;
    if kind.Call? {
      ghost var s1 := s';
      ok, s' := DoTransfer(t, caller, at, amount, s1, live);
      KeepsTrans(s, s1, s', live);
    }
  }

  /** The code of an account runs if it has any. */
  method RunCode(t: Txn, config: Config, at: Address, to: Address, depth: nat, code: Program,
                 ghost s: State, ghost live: set<nat>, ghost burnt: nat)
      returns (ghost s': State, ghost burnt': nat)
    requires At(t, s, live)
    modifies t
    ensures At(t, s', live) && Keeps(s, s', live)
    ensures S(Reads(t, s'), burnt') ==
      if HasCode(Reads(t, s), to) then RunOps(config, S(Reads(t, s), burnt), at, depth, code.ops)
      else S(Reads(t, s), burnt)
    decreases code, 0
  {
    s', burnt' := s, burnt;
    var codeHash := t.GetCodeHash(to);
    if IsCode(codeHash) {
      s', burnt' := DoRunOps(t, config, at, depth, code.ops, s, live, burnt);
    }
  }

  /** applyCall: whatever the code does to the journal, a failed run is undone by the revert. */
  method DoApplyCall(t: Txn, config: Config, kind: CallType, caller: Address, at: Address, to: Address,
                     amount: nat, gas: nat, depth: nat, code: Program,
                     ghost s: State, ghost live: set<nat>, ghost burnt: nat)
      returns (r: Result, ghost s': State, ghost burnt': nat)
    requires At(t, s, live)
    modifies t
    ensures At(t, s', live) && Keeps(s, s', live)
    ensures (S(Reads(t, s'), burnt'), r)
         == ApplyCall(config, S(Reads(t, s), burnt), kind, caller, at, to, amount, gas, depth, code)
    ensures r.failed ==> SameReads(Reads(t, s), Reads(t, s')) && burnt' == burnt
    decreases code, 1
  {
    FailedCallChangesNothing(config, S(Reads(t, s), burnt), kind, caller, at, to, amount, gas, depth, code);
    if depth > MAX_DEPTH {
      return Result(gas, true), s, burnt;
    }
    var id, ok;
    ghost var s0, s1, s2;
    id, s0 := DoSnapshot(t, s, live);
    ok, s1 := StartCall(t, kind, caller, at, amount, s0, live + {id});
    KeepsTrans(s, s0, s1, live);
    if !ok {
      return Result(gas, true), s1, burnt;
    }
    s2, burnt' := RunCode(t, config, at, to, depth, code, s1, live + {id}, burnt);
    KeepsTrans(s, s1, s2, live);
    KeepsTrans(s0, s1, s2, live + {id});
    r, s' := Result(Min(code.gasLeft, gas), code.failed), s2;
    if code.failed {
      s' := DoRevert(t, id, s, s2, live);
      burnt' := burnt;
    }
  }

  /** What applyCreate does between its snapshot and the run of the code. */
  method StartCreate(t: Txn, config: Config, caller: Address, address: Address, amount: nat, ghost s: State,
                     ghost live: set<nat>)
      returns (ok: bool, ghost s': State)
    requires At(t, s, live)
    modifies t
    ensures At(t, s', live) && Keeps(s, s', live)
    ensures var w := Created(config, Reads(t, s), address);
            var moved := Transfer(w, caller, address, amount);
            (ok <==> moved.Some?) && Reads(t, s') == if ok then moved.value else w
  {
    ghost var s1 := s;
    if config.eip158 {
      Step(t, s, Op.CreateAccount(address), live);
      t.CreateAccount(address);
      s1 := Done(t.base, t.spare, s, Op.CreateAccount(address));
      Step(t, s1, Op.IncrNonce(address), live);
      t.IncrNonce(address);
      s1 := Done(t.base, t.spare, s1, Op.IncrNonce(address));
    }
    ok, s' := DoTransfer(t, caller, address, amount, s1, live);
    KeepsTrans(s, s1, s', live);
  }

  method HasCodeOrNonceAt(t: Txn, a: Address, ghost s: State, ghost live: set<nat>) returns (taken: bool)
    requires At(t, s, live)
    ensures At(t, s, live) && taken == HasCodeOrNonce(Reads(t, s), a)
  {
    var nonce := t.GetNonce(a);
    if nonce != 0 {
      return true;
    }
    var codeHash := t.GetCodeHash(a);
    taken := IsCode(codeHash);
  }

  /** What applyCreate does once the code has run: the journal stood at s when the snapshot was taken. */
  method EndCreate(t: Txn, config: Config, id: nat, address: Address, gas: nat, init: Program,
                   ghost s: State, ghost now: State, ghost live: set<nat>, ghost burnt: nat, ghost burnt1: nat)
      returns (r: Result, ghost s': State, ghost burnt': nat)
    requires OnPath(s, live) && id == |s.snapshots| < |now.snapshots| && now.snapshots[id] == s.cur
    requires At(t, now, live + {id}) && Keeps(s, now, live)
    modifies t
    ensures At(t, s', live) && Keeps(s, s', live)
    ensures (S(Reads(t, s'), burnt'), r)
         == FinishCreate(config, S(Reads(t, s), burnt), S(Reads(t, now), burnt1), address, gas, init)
  {
    var left := Min(init.gasLeft, gas);
    var tooLong := config.eip158 && init.returned > MAX_CODE_SIZE;
    var unpaid := left < init.returned * 200;
    if init.failed || tooLong || (unpaid && config.homestead) {
      s' := DoRevert(t, id, s, now, live);
      return Result(if init.failed then left else 0, true), s', burnt;
    }
    if unpaid {
      return Result(left, true), now, burnt1;
    }
    Step(t, now, Op.SetCode(address, init.codeHash), live + {id});
    t.SetCode(address, init.codeHash);
    s' := Done(t.base, t.spare, now, Op.SetCode(address, init.codeHash));
    KeepsTrans(s, now, s', live);
    return Result(left - init.returned * 200, false), s', burnt1;
  }

  /** applyCreate */
  method DoApplyCreate(t: Txn, config: Config, caller: Address, address: Address, amount: nat, gas: nat, depth: nat,
                       init: Program, ghost s: State, ghost live: set<nat>, ghost burnt: nat)
      returns (r: Result, ghost s': State, ghost burnt': nat)
    requires At(t, s, live)
    modifies t
    ensures At(t, s', live) && Keeps(s, s', live)
    ensures (S(Reads(t, s'), burnt'), r)
         == ApplyCreate(config, S(Reads(t, s), burnt), caller, address, amount, gas, depth, init)
    decreases init, 1
  {
    if depth > MAX_DEPTH {
      return Result(gas, true), s, burnt;
    }
    Step(t, s, Op.IncrNonce(caller), live);
    t.IncrNonce(caller);
    ghost var s1 := Done(t.base, t.spare, s, Op.IncrNonce(caller));
    var taken := HasCodeOrNonceAt(t, address, s1, live);
    if taken {
      return Result(0, true), s1, burnt;
    }
    r, s', burnt' := CreateFrom(t, config, caller, address, amount, gas, depth, init, s1, live, burnt);
    KeepsTrans(s, s1, s', live);
  }

  /** applyCreate from its snapshot on. */
  method CreateFrom(t: Txn, config: Config, caller: Address, address: Address, amount: nat, gas: nat, depth: nat,
                    init: Program, ghost s: State, ghost live: set<nat>, ghost burnt: nat)
      returns (r: Result, ghost s': State, ghost burnt': nat)
    requires At(t, s, live)
    modifies t
    ensures At(t, s', live) && Keeps(s, s', live)
    ensures var s1 := S(Reads(t, s), burnt);
            var w2 := Created(config, s1.w, address);
            var moved := Transfer(w2, caller, address, amount);
            (S(Reads(t, s'), burnt'), r) ==
              if moved.None? then (s1.(w := w2), Result(gas, true))
              else
                var s3 := RunOps(config, s1.(w := moved.value), address, depth, init.ops);
                FinishCreate(config, s1, s3, address, gas, init)
    decreases init, 0
  {
    var id, ok;
    ghost var s0, s2, s3, burnt1;
    id, s0 := DoSnapshot(t, s, live);
    ok, s2 := StartCreate(t, config, caller, address, amount, s0, live + {id});
    KeepsTrans(s, s0, s2, live);
    if !ok {
      return Result(gas, true), s2, burnt;
    }
    s3, burnt1 := DoRunOps(t, config, address, depth, init.ops, s2, live + {id}, burnt);
    KeepsTrans(s, s2, s3, live);
    KeepsTrans(s0, s2, s3, live + {id});
    r, s', burnt' := EndCreate(t, config, id, address, gas, init, s, s3, live, burnt, burnt1);
  }
}
