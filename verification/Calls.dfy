/** Calls, creations and transfers of state/executor.go on the world. The interpreter is any program of host
    operations: what it stores, logs, destroys, calls and creates, and what it returns. A snapshot is the world
    at that point; module Host proves that the journal's reverts come to the same. */
module Calls {
  import opened Types
  import opened Journal
  import Refund
  import opened Sums

  datatype Config = Config(homestead: bool, eip155: bool, eip158: bool, byzantium: bool, refunds: Refund.Forks)

  datatype CallType = Call | CallCode | DelegateCall | StaticCall

  /** What one run of the interpreter does at its host and how it ends. */
  datatype Program = Program(ops: seq<HostOp>, failed: bool, gasLeft: nat, returned: nat, codeHash: nat)

  datatype HostOp =
    | Store(key: Slot, value: Word)
    | Emit(topics: seq<nat>, data: seq<nat>)
    | SelfDestruct(beneficiary: Address)
    | CallOut(kind: CallType, to: Address, amount: nat, gas: nat, code: Program)
    | CreateOut(address: Address, amount: nat, gas: nat, init: Program)

  /** The world and the balance destroyed so far. */
  datatype S = S(w: World, burnt: nat)

  datatype Result = Result(gasLeft: nat, failed: bool)

  const MAX_DEPTH := 1025
  const MAX_CODE_SIZE := 24576

  function BalanceOf(w: World, a: Address): nat {
    EntryOrNew(w, a).balance
  }

  predicate HasCode(w: World, a: Address) {
    IsCode(EntryOrNew(w, a).codeHash)
  }

  predicate HasCodeOrNonce(w: World, a: Address) {
    EntryOrNew(w, a).nonce != 0 || HasCode(w, a)
  }

  /** Moves an amount; None if the balance is too small. */
  function Transfer(w: World, from: Address, to: Address, amount: nat): Option<World> {
    if BalanceOf(w, from) < amount then None
    else Some(ApplyWorld(ApplyWorld(w, SubBalance(from, amount)), AddBalance(to, amount)))
  }

  function Destroy(s: S, a: Address, beneficiary: Address): S {
    var w := if EntryOrNew(s.w, a).suicide then s.w else ApplyWorld(s.w, AddRefund(24000));
    var paid := ApplyWorld(w, AddBalance(beneficiary, BalanceOf(w, a)));
    S(ApplyWorld(paid, Suicide(a)), s.burnt + if beneficiary == a then BalanceOf(w, a) else 0)
  }

  function RunOps(config: Config, s: S, self: Address, depth: nat, ops: seq<HostOp>): S
    decreases ops, 0
  {
    if ops == [] then s
    else RunOps(config, RunOp(config, s, self, depth, ops[0]), self, depth, ops[1..])
  }

  function RunOp(config: Config, s: S, self: Address, depth: nat, op: HostOp): S
    decreases op, 0
  {
    match op
    case Store(key, value) => s.(w := Refund.SetStorage(s.w, self, key, value, config.refunds))
    case Emit(topics, data) => s.(w := ApplyWorld(s.w, EmitLog(Log(self, topics, data))))
    case SelfDestruct(beneficiary) => Destroy(s, self, beneficiary)
    case CallOut(kind, to, amount, gas, code) =>
      var at := if kind.Call? || kind.StaticCall? then to else self;
      ApplyCall(config, s, kind, self, at, to, amount, gas, depth + 1, code).0
    case CreateOut(address, amount, gas, init) =>
      ApplyCreate(config, s, self, address, amount, gas, depth + 1, init).0
  }

  /** A call at address at with the code of account to. An account without code does nothing to the state,
      and a run that fails is undone. */
  function ApplyCall(config: Config, s: S, kind: CallType, caller: Address, at: Address, to: Address,
                     amount: nat, gas: nat, depth: nat, code: Program): (S, Result)
    decreases code, 1
  {
    if depth > MAX_DEPTH then (s, Result(gas, true))
    else
      var touched := ApplyWorld(s.w, TouchAccount(at));
      var moved := if kind.Call? then Transfer(touched, caller, at, amount) else Some(touched);
      if moved.None? then (s.(w := touched), Result(gas, true))
      else
        var s1 := s.(w := moved.value);
        var s2 := if HasCode(s1.w, to) then RunOps(config, s1, at, depth, code.ops) else s1;
        (if code.failed then s else s2, Result(Min(code.gasLeft, gas), code.failed))
  }

  /** The world a created contract starts in. */
  function Created(config: Config, w: World, address: Address): World {
    if config.eip158 then ApplyWorld(ApplyWorld(w, CreateAccount(address)), IncrNonce(address)) else w
  }

  function ApplyCreate(config: Config, s: S, caller: Address, address: Address,
                       amount: nat, gas: nat, depth: nat, init: Program): (S, Result)
    decreases init, 1
  {
    if depth > MAX_DEPTH then (s, Result(gas, true))
    else
      var s1 := s.(w := ApplyWorld(s.w, IncrNonce(caller)));
      if HasCodeOrNonce(s1.w, address) then (s1, Result(0, true))
      else
        var w2 := Created(config, s1.w, address);
        var moved := Transfer(w2, caller, address, amount);
        if moved.None? then (s1.(w := w2), Result(gas, true))
        else
          var s3 := RunOps(config, s1.(w := moved.value), address, depth, init.ops);
          FinishCreate(config, s1, s3, address, gas, init)
  }

  /** Ends a creation that took its snapshot at s1 and ran up to s3. */
  function FinishCreate(config: Config, s1: S, s3: S, address: Address, gas: nat, init: Program): (S, Result) {
    var left := Min(init.gasLeft, gas);
    if init.failed then (s1, Result(left, true))
    else if config.eip158 && init.returned > MAX_CODE_SIZE then (s1, Result(0, true))
    else if left < init.returned * 200 then
      if config.homestead then (s1, Result(0, true)) else (s3, Result(left, true))
    else (s3.(w := ApplyWorld(s3.w, SetCode(address, init.codeHash))), Result(left - init.returned * 200, false))
  }

  // ----- The sum of all balances -----

  ghost function Balances(m: map<Address, Entry>): map<Address, nat> {
    map a | a in m :: m[a].balance
  }

  ghost function Total(m: map<Address, Entry>): nat {
    Sum(Balances(m))
  }

  lemma TotalWithout(m: map<Address, Entry>, a: Address)
    requires a in m
    ensures Total(m) == m[a].balance + Total(m - {a})
  {
    SumWithout(Balances(m), a);
    assert Balances(m - {a}) == Balances(m) - {a};
  }

  lemma TotalPut(m: map<Address, Entry>, a: Address, e: Entry)
    ensures Total(m[a := e]) == Total(m) + e.balance - if a in m then m[a].balance else 0
  {
    SumPut(Balances(m), a, e.balance);
    assert Balances(m[a := e]) == Balances(m)[a := e.balance];
  }

  ghost function Supply(s: S): nat {
    Total(s.w.accounts) + s.burnt
  }

  /** What an operation on one account does to the sum. */
  lemma OpTotal(w: World, op: Op)
    requires OnAccount(op)
    ensures ApplyWorld(w, op) == w
         || Total(ApplyWorld(w, op).accounts)
            == Total(w.accounts) - BalanceOf(w, op.a) + UpdateEntry(EntryOrNew(w, op.a), op).balance
  {
    TotalPut(w.accounts, op.a, UpdateEntry(EntryOrNew(w, op.a), op));
  }

  lemma TransferConserves(w: World, from: Address, to: Address, amount: nat)
    ensures Transfer(w, from, to, amount).Some? ==>
      Total(Transfer(w, from, to, amount).value.accounts) == Total(w.accounts)
  {
    OpTotal(w, SubBalance(from, amount));
    OpTotal(ApplyWorld(w, SubBalance(from, amount)), AddBalance(to, amount));
  }

  lemma DestroyConserves(s: S, a: Address, beneficiary: Address)
    ensures Supply(Destroy(s, a, beneficiary)) == Supply(s)
  {
    var w := if EntryOrNew(s.w, a).suicide then s.w else ApplyWorld(s.w, AddRefund(24000));
    var pay := AddBalance(beneficiary, BalanceOf(w, a));
    OpTotal(w, pay);
    OpTotal(ApplyWorld(w, pay), Suicide(a));
  }

  lemma StoreConserves(w: World, a: Address, key: Slot, value: Word, forks: Refund.Forks)
    ensures Total(Refund.SetStorage(w, a, key, value, forks).accounts) == Total(w.accounts)
  {
    OpTotal(w, SetState(a, key, value));
  }

  lemma CreatedConserves(config: Config, w: World, address: Address)
    ensures Total(Created(config, w, address).accounts) == Total(w.accounts)
  {
    OpTotal(w, CreateAccount(address));
    OpTotal(ApplyWorld(w, CreateAccount(address)), IncrNonce(address));
  }

  lemma FinishConserves(config: Config, s1: S, s3: S, address: Address, gas: nat, init: Program)
    requires Supply(s3) == Supply(s1)
    ensures var r := FinishCreate(config, s1, s3, address, gas, init);
      Supply(r.0) == Supply(s1) && r.1.gasLeft <= gas
  {
    OpTotal(s3.w, SetCode(address, init.codeHash));
  }

  /** Whatever a program does, the balances and what selfdestructs in favour of themselves burnt add up to
      the same sum. */
  lemma {:induction false} OpsConserve(config: Config, s: S, self: Address, depth: nat, ops: seq<HostOp>)
    ensures Supply(RunOps(config, s, self, depth, ops)) == Supply(s)
    decreases ops, 0
  {
    if ops != [] {
      OpConserves(config, s, self, depth, ops[0]);
      OpsConserve(config, RunOp(config, s, self, depth, ops[0]), self, depth, ops[1..]);
    }
  }

  lemma {:induction false} OpConserves(config: Config, s: S, self: Address, depth: nat, op: HostOp)
    ensures Supply(RunOp(config, s, self, depth, op)) == Supply(s)
    decreases op, 0
  {
    match op
    case Store(key, value) => StoreConserves(s.w, self, key, value, config.refunds);
    case Emit(topics, data) =>
    case SelfDestruct(beneficiary) => DestroyConserves(s, self, beneficiary);
    case CallOut(kind, to, amount, gas, code) =>
      var at := if kind.Call? || kind.StaticCall? then to else self;
      CallConserves(config, s, kind, self, at, to, amount, gas, depth + 1, code);
    case CreateOut(address, amount, gas, init) =>
      CreateConserves(config, s, self, address, amount, gas, depth + 1, init);
  }

  lemma {:induction false} CallConserves(config: Config, s: S, kind: CallType, caller: Address, at: Address,
                                         to: Address, amount: nat, gas: nat, depth: nat, code: Program)
    ensures var r := ApplyCall(config, s, kind, caller, at, to, amount, gas, depth, code);
      Supply(r.0) == Supply(s) && r.1.gasLeft <= gas
    decreases code, 1
  {
    OpTotal(s.w, TouchAccount(at));
    var touched := ApplyWorld(s.w, TouchAccount(at));
    TransferConserves(touched, caller, at, amount);
    var moved := if kind.Call? then Transfer(touched, caller, at, amount) else Some(touched);
    if moved.Some? {
      OpsConserve(config, s.(w := moved.value), at, depth, code.ops);
    }
  }

  /** The steps of a creation up to the run of its code. */
  lemma StartConserves(config: Config, s: S, caller: Address, address: Address, amount: nat)
    ensures var s1 := s.(w := ApplyWorld(s.w, IncrNonce(caller)));
      var w2 := Created(config, s1.w, address);
      var moved := Transfer(w2, caller, address, amount);
      && Supply(s1) == Supply(s) && Supply(s1.(w := w2)) == Supply(s)
      && (moved.Some? ==> Supply(s1.(w := moved.value)) == Supply(s))
  {
    OpTotal(s.w, IncrNonce(caller));
    var w1 := ApplyWorld(s.w, IncrNonce(caller));
    CreatedConserves(config, w1, address);
    TransferConserves(Created(config, w1, address), caller, address, amount);
  }

  lemma {:induction false} CreateConserves(config: Config, s: S, caller: Address, address: Address,
                                           amount: nat, gas: nat, depth: nat, init: Program)
    ensures var r := ApplyCreate(config, s, caller, address, amount, gas, depth, init);
      Supply(r.0) == Supply(s) && r.1.gasLeft <= gas
    decreases init, 1
  {
    var s1 := s.(w := ApplyWorld(s.w, IncrNonce(caller)));
    StartConserves(config, s, caller, address, amount);
    var moved := Transfer(Created(config, s1.w, address), caller, address, amount);
    if moved.Some? {
      var s2 := s1.(w := moved.value);
      OpsConserve(config, s2, address, depth, init.ops);
      FinishConserves(config, s1, RunOps(config, s2, address, depth, init.ops), address, gas, init);
    }
  }

  // ----- What calls and transfers do -----

  /** A transfer moves exactly the amount, if the balance covers it, and touches nothing else. */
  lemma TransferMoves(w: World, from: Address, to: Address, amount: nat, a: Address)
    ensures Transfer(w, from, to, amount).Some? <==> amount <= BalanceOf(w, from)
    ensures amount <= BalanceOf(w, from) ==>
      var w' := Transfer(w, from, to, amount).value;
      && EntryOrNew(w', a) == EntryOrNew(w, a).(balance := BalanceOf(w', a))
      && BalanceOf(w', a) == BalanceOf(w, a) - (if a == from then amount else 0) + (if a == to then amount else 0)
      && w'.logs == w.logs && w'.refund == w.refund
  {
    var w1 := ApplyWorld(w, SubBalance(from, amount));
    assert amount <= BalanceOf(w, from) ==>
      EntryOrNew(w1, a) == EntryOrNew(w, a).(balance := BalanceOf(w, a) - if a == from then amount else 0);
  }

  /** A selfdestruct moves the whole balance, unless it is in favour of the account itself, and 24000 gas are credited
      the first time only. */
  lemma DestroyMoves(s: S, a: Address, beneficiary: Address, x: Address)
    requires a in s.w.accounts
    ensures var s' := Destroy(s, a, beneficiary);
      && BalanceOf(s'.w, x) == (if x == a then 0
                                else BalanceOf(s.w, x) + if x == beneficiary then BalanceOf(s.w, a) else 0)
      && EntryOrNew(s'.w, x) == EntryOrNew(s.w, x).(balance := BalanceOf(s'.w, x),
                                                    suicide := x == a || EntryOrNew(s.w, x).suicide)
      && s'.w.refund == s.w.refund + (if EntryOrNew(s.w, a).suicide then 0 else 24000) && s'.w.logs == s.w.logs
  {
    var w := if EntryOrNew(s.w, a).suicide then s.w else ApplyWorld(s.w, AddRefund(24000));
    var paid := ApplyWorld(w, AddBalance(beneficiary, BalanceOf(w, a)));
    assert EntryOrNew(paid, x) ==
      EntryOrNew(s.w, x).(balance := BalanceOf(s.w, x) + if x == beneficiary then BalanceOf(s.w, a) else 0);
    assert a in paid.accounts;
  }

  /** The accounts, the logs and the refund read the same; an account that was only touched does not show. */
  ghost predicate SameReads(w: World, w': World) {
    w'.logs == w.logs && w'.refund == w.refund && forall a :: EntryOrNew(w', a) == EntryOrNew(w, a)
  }

  /** A call that fails, for whatever reason and whatever its code did, changes nothing that can be read. */
  lemma FailedCallChangesNothing(config: Config, s: S, kind: CallType, caller: Address, at: Address, to: Address,
                                 amount: nat, gas: nat, depth: nat, code: Program)
    ensures var (s', r) := ApplyCall(config, s, kind, caller, at, to, amount, gas, depth, code);
      r.failed ==> SameReads(s.w, s'.w) && s'.burnt == s.burnt
  {
  }

  /** A call of an account without code only moves the amount. */
  lemma PlainCall(config: Config, s: S, caller: Address, to: Address, amount: nat, gas: nat, depth: nat, code: Program)
    requires depth <= MAX_DEPTH && amount <= BalanceOf(s.w, caller) && !HasCode(s.w, to) && !code.failed
    ensures var (s', r) := ApplyCall(config, s, Call, caller, to, to, amount, gas, depth, code);
      && !r.failed && s'.burnt == s.burnt
      && Some(s'.w) == Transfer(ApplyWorld(s.w, TouchAccount(to)), caller, to, amount)
  {
    var touched := ApplyWorld(s.w, TouchAccount(to));
    assert EntryOrNew(touched, to) == EntryOrNew(s.w, to) && EntryOrNew(touched, caller) == EntryOrNew(s.w, caller);
    var w' := Transfer(touched, caller, to, amount).value;
    assert EntryOrNew(w', to).codeHash == EntryOrNew(touched, to).codeHash;
  }

  /** From Homestead on, a creation that fails changes nothing but the creator's nonce, and the new account if
      the funds were missing. */
  lemma FailedCreate(config: Config, s: S, caller: Address, address: Address, amount: nat, gas: nat, depth: nat,
                     init: Program, a: Address)
    requires a != caller && a != address
    ensures var (s', r) := ApplyCreate(config, s, caller, address, amount, gas, depth, init);
      r.failed && config.homestead ==> EntryOrNew(s'.w, a) == EntryOrNew(s.w, a) && s'.burnt == s.burnt
  {
  }

  // ----- When calls and creations fail, and what they start from -----

  /** A call fails exactly when it is too deep, the funds are missing or its code fails; in the first two cases all its
      gas is left. The callee stays touched only if the funds are missing. */
  lemma CallFailsExactly(config: Config, s: S, kind: CallType, caller: Address, at: Address, to: Address,
                         amount: nat, gas: nat, depth: nat, code: Program)
    ensures var (s', r) := ApplyCall(config, s, kind, caller, at, to, amount, gas, depth, code);
      var missing := kind.Call? && BalanceOf(s.w, caller) < amount;
      var refused := depth > MAX_DEPTH || missing;
      && (r.failed <==> refused || code.failed) && r.gasLeft == (if refused then gas else Min(code.gasLeft, gas))
      && (r.failed ==> s'.w.accounts.Keys ==
                         s.w.accounts.Keys + if depth <= MAX_DEPTH && missing then {at} else {})
  {
  }

  /** The logs that code at an address emits itself. */
  function Emitted(self: Address, ops: seq<HostOp>): seq<Log> {
    if ops == [] then []
    else LogsOf(self, ops[0]) + Emitted(self, ops[1..])
  }

  function LogsOf(self: Address, op: HostOp): seq<Log> {
    if op.Emit? then [Log(self, op.topics, op.data)] else []
  }

  predicate CallsNobody(ops: seq<HostOp>) {
    ops == [] || (!ops[0].CallOut? && !ops[0].CreateOut? && CallsNobody(ops[1..]))
  }

  lemma Associates(a: seq<Log>, b: seq<Log>, c: seq<Log>)
    ensures (a + b) + c == a + (b + c)
  {
  }

  lemma OwnLog(config: Config, s: S, self: Address, depth: nat, op: HostOp)
    requires !op.CallOut? && !op.CreateOut?
    ensures RunOp(config, s, self, depth, op).w.logs == s.w.logs + LogsOf(self, op)
  {
  }

  /** Code that calls nobody adds its own logs, in order and with its own address. */
  lemma {:induction false} OwnLogs(config: Config, s: S, self: Address, depth: nat, ops: seq<HostOp>)
    requires CallsNobody(ops)
    ensures RunOps(config, s, self, depth, ops).w.logs == s.w.logs + Emitted(self, ops)
    decreases ops
  {
    if ops != [] {
      OwnLog(config, s, self, depth, ops[0]);
      OwnLogs(config, RunOp(config, s, self, depth, ops[0]), self, depth, ops[1..]);
      Associates(s.w.logs, LogsOf(self, ops[0]), Emitted(self, ops[1..]));
    }
  }

  /** From w to w' nothing has changed but that the amount has moved. */
  ghost predicate Moved(w: World, w': World, from: Address, to: Address, amount: nat) {
    && w'.logs == w.logs && w'.refund == w.refund
    && forall a :: && EntryOrNew(w', a) == EntryOrNew(w, a).(balance := BalanceOf(w', a))
                   && BalanceOf(w', a) == BalanceOf(w, a) - (if a == from then amount else 0)
                                                          + (if a == to then amount else 0)
  }

  /** The code of a call that succeeds runs on a world where the amount has moved, for a call proper, and nothing else
      has changed; without code nothing runs. */
  lemma CallRuns(config: Config, s: S, kind: CallType, caller: Address, at: Address, to: Address,
                 amount: nat, gas: nat, depth: nat, code: Program) returns (w: World)
    requires depth <= MAX_DEPTH && (kind.Call? ==> amount <= BalanceOf(s.w, caller)) && !code.failed
    ensures ApplyCall(config, s, kind, caller, at, to, amount, gas, depth, code).0 ==
      if HasCode(s.w, to) then RunOps(config, s.(w := w), at, depth, code.ops) else s.(w := w)
    ensures Moved(s.w, w, caller, at, if kind.Call? then amount else 0)
  {
    var touched := ApplyWorld(s.w, TouchAccount(at));
    assert forall a :: EntryOrNew(touched, a) == EntryOrNew(s.w, a);
    w := touched;
    if kind.Call? {
      forall a ensures var w' := Transfer(touched, caller, at, amount).value;
        && EntryOrNew(w', a) == EntryOrNew(s.w, a).(balance := BalanceOf(w', a))
        && BalanceOf(w', a) == BalanceOf(s.w, a) - (if a == caller then amount else 0) + (if a == at then amount else 0)
      {
        TransferMoves(touched, caller, at, amount, a);
      }
      TransferMoves(touched, caller, at, amount, to);
      w := Transfer(touched, caller, at, amount).value;
    }
  }

  lemma StoreReads(config: Config, s: S, self: Address, depth: nat, key: Slot, value: Word, b: Address)
    ensures var s' := RunOps(config, s, self, depth, [Store(key, value)]);
      Refund.Storage(s'.w, b, key) == if b == self then value else Refund.Storage(s.w, b, key)
  {
    var ops: seq<HostOp> := [Store(key, value)];
    assert ops[1..] == [];
    assert RunOps(config, s, self, depth, ops) == RunOp(config, s, self, depth, Store(key, value));
  }

  /** Whose storage the code of a call works on: that of the callee for calls and static calls, and the caller's own
      for the other two. */
  lemma CallOutStores(config: Config, s: S, self: Address, depth: nat, kind: CallType, to: Address, gas: nat,
                      key: Slot, value: Word, b: Address)
    requires depth < MAX_DEPTH && HasCode(s.w, to)
    ensures var code := Program([Store(key, value)], false, gas, 0, 0);
      var s' := RunOp(config, s, self, depth, CallOut(kind, to, 0, gas, code));
      var at := if kind == DelegateCall || kind == CallCode then self else to;
      Refund.Storage(s'.w, b, key) == if b == at then value else Refund.Storage(s.w, b, key)
  {
    var code := Program([Store(key, value)], false, gas, 0, 0);
    var at := if kind == DelegateCall || kind == CallCode then self else to;
    var w := CallRuns(config, s, kind, self, at, to, 0, gas, depth + 1, code);
    StoreReads(config, s.(w := w), at, depth + 1, key, value, b);
    assert EntryOrNew(w, b) == EntryOrNew(s.w, b);
  }

  /** The address of a creation is taken by an account in use, if only by the creator. */
  predicate Taken(w: World, caller: Address, address: Address) {
    address == caller || HasCodeOrNonce(w, address)
  }

  /** What a creation meets before its code runs: None if nothing stops it, or the gas that is left. */
  function Refusal(w: World, caller: Address, address: Address, amount: nat, gas: nat, depth: nat): Option<nat> {
    if depth > MAX_DEPTH then Some(gas)
    else if Taken(w, caller, address) then Some(0)
    else if BalanceOf(w, caller) < amount then Some(gas)
    else None
  }

  lemma AfterIncrement(w: World, caller: Address, a: Address)
    ensures EntryOrNew(ApplyWorld(w, IncrNonce(caller)), a) ==
      EntryOrNew(w, a).(nonce := EntryOrNew(w, a).nonce + if a == caller then 1 else 0)
    ensures HasCodeOrNonce(ApplyWorld(w, IncrNonce(caller)), a) <==> Taken(w, caller, a)
  {
  }

  lemma CreatedEntry(config: Config, w: World, address: Address, a: Address)
    requires !HasCodeOrNonce(w, address)
    ensures EntryOrNew(Created(config, w, address), a) ==
      if a == address && config.eip158 then NEW_ENTRY.(nonce := 1, balance := BalanceOf(w, a)) else EntryOrNew(w, a)
    ensures Created(config, w, address).logs == w.logs && Created(config, w, address).refund == w.refund
  {
  }

  /** The world in which the code of a new contract starts: the amount has moved from the creator, whose nonce has
      risen, and under EIP-158 the new account has nonce 1 and an empty storage. */
  ghost predicate StartsIn(config: Config, w: World, w': World, caller: Address, address: Address, amount: nat) {
    && w'.logs == w.logs && w'.refund == w.refund
    && forall a :: && BalanceOf(w', a) == BalanceOf(w, a) - (if a == caller then amount else 0)
                                                          + (if a == address then amount else 0)
                   && EntryOrNew(w', a) ==
                        if a == address && config.eip158 then NEW_ENTRY.(nonce := 1, balance := BalanceOf(w', a))
                        else EntryOrNew(w, a).(balance := BalanceOf(w', a),
                                               nonce := EntryOrNew(w, a).nonce + if a == caller then 1 else 0)
  }

  lemma CreateStarts(config: Config, w: World, caller: Address, address: Address, amount: nat)
    requires !Taken(w, caller, address) && amount <= BalanceOf(w, caller)
    ensures var w2 := Created(config, ApplyWorld(w, IncrNonce(caller)), address);
      Transfer(w2, caller, address, amount).Some?
      && StartsIn(config, w, Transfer(w2, caller, address, amount).value, caller, address, amount)
  {
    var w1 := ApplyWorld(w, IncrNonce(caller));
    var w2 := Created(config, w1, address);
    AfterIncrement(w, caller, address);
    forall a ensures BalanceOf(w2, a) == BalanceOf(w, a)
      ensures EntryOrNew(w2, a) ==
        if a == address && config.eip158 then NEW_ENTRY.(nonce := 1, balance := BalanceOf(w, a))
        else EntryOrNew(w, a).(nonce := EntryOrNew(w, a).nonce + if a == caller then 1 else 0)
    {
      AfterIncrement(w, caller, a);
      CreatedEntry(config, w1, address, a);
    }
    CreatedEntry(config, w1, address, address);
    forall a ensures var w' := Transfer(w2, caller, address, amount).value;
      && EntryOrNew(w', a) == EntryOrNew(w2, a).(balance := BalanceOf(w', a))
      && BalanceOf(w', a) == BalanceOf(w2, a) - (if a == caller then amount else 0)
                                              + (if a == address then amount else 0)
      && w'.logs == w.logs && w'.refund == w.refund
    {
      TransferMoves(w2, caller, address, amount, a);
    }
  }

  /** A creation that is refused leaves the gas that Refusal says. Otherwise its code runs in a world that StartsIn
      describes, and FinishCreate ends it. */
  lemma CreateRuns(config: Config, s: S, caller: Address, address: Address, amount: nat, gas: nat, depth: nat,
                   init: Program) returns (w: World)
    ensures var refusal := Refusal(s.w, caller, address, amount, gas, depth);
      var r := ApplyCreate(config, s, caller, address, amount, gas, depth, init);
      if refusal.Some? then r.1 == Result(refusal.value, true)
      else && StartsIn(config, s.w, w, caller, address, amount)
           && r == FinishCreate(config, s.(w := ApplyWorld(s.w, IncrNonce(caller))),
                                RunOps(config, s.(w := w), address, depth, init.ops), address, gas, init)
  {
    w := s.w;
    AfterIncrement(s.w, caller, address);
    AfterIncrement(s.w, caller, caller);
    var w1 := ApplyWorld(s.w, IncrNonce(caller));
    if depth <= MAX_DEPTH && !Taken(s.w, caller, address) {
      CreatedEntry(config, w1, address, caller);
      if amount <= BalanceOf(s.w, caller) {
        CreateStarts(config, s.w, caller, address, amount);
        w := Transfer(Created(config, w1, address), caller, address, amount).value;
      }
    }
  }

  /** What a creation that is refused leaves behind: nothing if it is too deep, otherwise a higher nonce of the creator,
      and under EIP-158 the new account with nonce 1 if only the funds were missing. */
  lemma RefusedCreate(config: Config, s: S, caller: Address, address: Address, amount: nat, gas: nat, depth: nat,
                      init: Program, a: Address)
    requires Refusal(s.w, caller, address, amount, gas, depth).Some?
    ensures var w' := ApplyCreate(config, s, caller, address, amount, gas, depth, init).0.w;
      && w'.logs == s.w.logs && w'.refund == s.w.refund
      && EntryOrNew(w', a) ==
         if depth > MAX_DEPTH then EntryOrNew(s.w, a)
         else if a == address && config.eip158 && !Taken(s.w, caller, address)
         then NEW_ENTRY.(nonce := 1, balance := BalanceOf(s.w, a))
         else EntryOrNew(s.w, a).(nonce := EntryOrNew(s.w, a).nonce + if a == caller then 1 else 0)
  {
    var w1 := ApplyWorld(s.w, IncrNonce(caller));
    AfterIncrement(s.w, caller, a);
    AfterIncrement(s.w, caller, address);
    AfterIncrement(s.w, caller, caller);
    if depth <= MAX_DEPTH && !Taken(s.w, caller, address) {
      CreatedEntry(config, w1, address, a);
      CreatedEntry(config, w1, address, caller);
    }
  }

  /** A creation succeeds exactly when it is not refused, its code does not fail, and what the code returns is not too
      long under EIP-158 and is paid for. Then the account has that code, and otherwise all gas is gone unless the
      code itself failed or, before Homestead, left too little. */
  lemma CreateExactly(config: Config, s: S, caller: Address, address: Address, amount: nat, gas: nat, depth: nat,
                      init: Program)
    requires Refusal(s.w, caller, address, amount, gas, depth).None?
    ensures var (s', r) := ApplyCreate(config, s, caller, address, amount, gas, depth, init);
      var left := Min(init.gasLeft, gas);
      var tooLong := config.eip158 && init.returned > MAX_CODE_SIZE;
      && (r.failed <==> init.failed || tooLong || left < 200 * init.returned)
      && (!r.failed ==> address in s'.w.accounts && s'.w.accounts[address].codeHash == init.codeHash
                        && r.gasLeft + 200 * init.returned == left)
      && (r.failed ==> r.gasLeft == if init.failed || (!tooLong && !config.homestead) then left else 0)
  {
    var w := CreateRuns(config, s, caller, address, amount, gas, depth, init);
  }

  /** An account with a nonce keeps it, or a higher one, whatever runs. */
  lemma OpKeepsNonce(w: World, op: Op, a: Address)
    requires OnAccount(op) && !op.SetNonce? && !op.AddSealingReward? && (op.CreateAccount? ==> op.a != a)
    ensures EntryOrNew(ApplyWorld(w, op), a).nonce >= EntryOrNew(w, a).nonce
  {
  }

  ghost predicate NonceKept(w: World, w': World, a: Address) {
    EntryOrNew(w, a).nonce > 0 ==> EntryOrNew(w', a).nonce >= EntryOrNew(w, a).nonce
  }

  lemma {:induction false} OpsKeepNonce(config: Config, s: S, self: Address, depth: nat, ops: seq<HostOp>, a: Address)
    ensures NonceKept(s.w, RunOps(config, s, self, depth, ops).w, a)
    decreases ops, 0
  {
    if ops != [] {
      RunOpKeepsNonce(config, s, self, depth, ops[0], a);
      OpsKeepNonce(config, RunOp(config, s, self, depth, ops[0]), self, depth, ops[1..], a);
    }
  }

  lemma {:induction false} RunOpKeepsNonce(config: Config, s: S, self: Address, depth: nat, op: HostOp, a: Address)
    ensures NonceKept(s.w, RunOp(config, s, self, depth, op).w, a)
    decreases op, 0
  {
    match op
    case Store(key, value) => OpKeepsNonce(s.w, SetState(self, key, value), a);
    case Emit(topics, data) =>
    case SelfDestruct(beneficiary) => DestroyKeepsNonce(s, self, beneficiary, a);
    case CallOut(kind, to, amount, gas, code) =>
      var at := if kind.Call? || kind.StaticCall? then to else self;
      CallKeepsNonce(config, s, kind, self, at, to, amount, gas, depth + 1, code, a);
    case CreateOut(address, amount, gas, init) =>
      CreateKeepsNonce(config, s, self, address, amount, gas, depth + 1, init, a);
  }

  lemma DestroyKeepsNonce(s: S, self: Address, beneficiary: Address, a: Address)
    ensures EntryOrNew(Destroy(s, self, beneficiary).w, a).nonce == EntryOrNew(s.w, a).nonce
  {
  }

  lemma {:induction false} CallKeepsNonce(config: Config, s: S, kind: CallType, caller: Address, at: Address,
                                          to: Address, amount: nat, gas: nat, depth: nat, code: Program, a: Address)
    ensures NonceKept(s.w, ApplyCall(config, s, kind, caller, at, to, amount, gas, depth, code).0.w, a)
    decreases code, 1
  {
    var r := ApplyCall(config, s, kind, caller, at, to, amount, gas, depth, code);
    if r.1.failed {
      FailedCallChangesNothing(config, s, kind, caller, at, to, amount, gas, depth, code);
    } else {
      var w := CallRuns(config, s, kind, caller, at, to, amount, gas, depth, code);
      assert EntryOrNew(w, a).nonce == EntryOrNew(s.w, a).nonce;
      OpsKeepNonce(config, s.(w := w), at, depth, code.ops, a);
    }
  }

  lemma FinishKeepsNonce(config: Config, s1: S, s3: S, address: Address, gas: nat, init: Program, a: Address)
    ensures var w := FinishCreate(config, s1, s3, address, gas, init).0.w;
      EntryOrNew(w, a).nonce == EntryOrNew(s1.w, a).nonce || EntryOrNew(w, a).nonce == EntryOrNew(s3.w, a).nonce
  {
  }

  lemma {:induction false} CreateKeepsNonce(config: Config, s: S, caller: Address, address: Address, amount: nat,
                                            gas: nat, depth: nat, init: Program, a: Address)
    ensures NonceKept(s.w, ApplyCreate(config, s, caller, address, amount, gas, depth, init).0.w, a)
    decreases init, 1
  {
    if Refusal(s.w, caller, address, amount, gas, depth).None? {
      AfterIncrement(s.w, caller, a);
      var w := CreateRuns(config, s, caller, address, amount, gas, depth, init);
      assert EntryOrNew(w, a).nonce >= EntryOrNew(s.w, a).nonce;
      OpsKeepNonce(config, s.(w := w), address, depth, init.ops, a);
      FinishKeepsNonce(config, s.(w := ApplyWorld(s.w, IncrNonce(caller))),
                       RunOps(config, s.(w := w), address, depth, init.ops), address, gas, init, a);
    } else {
      RefusedCreate(config, s, caller, address, amount, gas, depth, init, a);
    }
  }

  /** Under EIP-158 an address is created at most once in a transaction: after a creation that succeeds, whatever runs
      next, another one at the same address fails and leaves no gas. */
  lemma CreatedOnce(config: Config, s: S, caller: Address, address: Address, amount: nat, gas: nat, depth: nat,
                    init: Program, self: Address, ops: seq<HostOp>,
                    caller': Address, amount': nat, gas': nat, init': Program)
    requires config.eip158 && depth <= MAX_DEPTH
    requires !ApplyCreate(config, s, caller, address, amount, gas, depth, init).1.failed
    ensures var created := ApplyCreate(config, s, caller, address, amount, gas, depth, init).0;
      var s' := RunOps(config, created, self, depth, ops);
      ApplyCreate(config, s', caller', address, amount', gas', depth, init').1 == Result(0, true)
  {
    var w := CreateRuns(config, s, caller, address, amount, gas, depth, init);
    assert EntryOrNew(w, address).nonce == 1;
    var s3 := RunOps(config, s.(w := w), address, depth, init.ops);
    OpsKeepNonce(config, s.(w := w), address, depth, init.ops, address);
    OpKeepsNonce(s3.w, SetCode(address, init.codeHash), address);
    var done := ApplyCreate(config, s, caller, address, amount, gas, depth, init).0;
    OpsKeepNonce(config, done, self, depth, ops, address);
    AfterIncrement(RunOps(config, done, self, depth, ops).w, caller', address);
  }

  // ----- The nonce of an account without code -----

  /** An account in use that has no code. */
  predicate IsUser(w: World, a: Address, nonce: nat) {
    EntryOrNew(w, a).nonce == nonce > 0 && !HasCode(w, a)
  }

  lemma OpKeepsUser(w: World, op: Op, a: Address, nonce: nat)
    requires OnAccount(op) && IsUser(w, a, nonce)
    requires op.a != a || op.AddBalance? || op.SubBalance? || op.TouchAccount?
    ensures IsUser(ApplyWorld(w, op), a, nonce)
  {
  }

  lemma TransferKeepsUser(w: World, from: Address, to: Address, amount: nat, a: Address, nonce: nat)
    requires IsUser(w, a, nonce)
    ensures Transfer(w, from, to, amount).Some? ==> IsUser(Transfer(w, from, to, amount).value, a, nonce)
  {
    OpKeepsUser(w, SubBalance(from, amount), a, nonce);
    OpKeepsUser(ApplyWorld(w, SubBalance(from, amount)), AddBalance(to, amount), a, nonce);
  }

  lemma DestroyKeepsUser(s: S, self: Address, beneficiary: Address, a: Address, nonce: nat)
    requires self != a && IsUser(s.w, a, nonce)
    ensures IsUser(Destroy(s, self, beneficiary).w, a, nonce)
  {
    var w := if EntryOrNew(s.w, self).suicide then s.w else ApplyWorld(s.w, AddRefund(24000));
    var pay := AddBalance(beneficiary, BalanceOf(w, self));
    OpKeepsUser(w, pay, a, nonce);
    OpKeepsUser(ApplyWorld(w, pay), Suicide(self), a, nonce);
  }

  lemma CreatedKeepsUser(config: Config, w: World, address: Address, a: Address, nonce: nat)
    requires address != a && IsUser(w, a, nonce)
    ensures IsUser(Created(config, w, address), a, nonce)
  {
    OpKeepsUser(w, CreateAccount(address), a, nonce);
    OpKeepsUser(ApplyWorld(w, CreateAccount(address)), IncrNonce(address), a, nonce);
  }

  /** No program that runs elsewhere changes the nonce of an account in use without code, or gives it code. */
  lemma {:induction false} OpsKeepUser(config: Config, s: S, self: Address, depth: nat, ops: seq<HostOp>,
                                       a: Address, nonce: nat)
    requires self != a && IsUser(s.w, a, nonce)
    ensures IsUser(RunOps(config, s, self, depth, ops).w, a, nonce)
    decreases ops, 0
  {
    if ops != [] {
      OpKeepsUserInside(config, s, self, depth, ops[0], a, nonce);
      OpsKeepUser(config, RunOp(config, s, self, depth, ops[0]), self, depth, ops[1..], a, nonce);
    }
  }

  lemma {:induction false} OpKeepsUserInside(config: Config, s: S, self: Address, depth: nat, op: HostOp,
                                             a: Address, nonce: nat)
    requires self != a && IsUser(s.w, a, nonce)
    ensures IsUser(RunOp(config, s, self, depth, op).w, a, nonce)
    decreases op, 0
  {
    match op
    case Store(key, value) => OpKeepsUser(s.w, SetState(self, key, value), a, nonce);
    case Emit(topics, data) =>
    case SelfDestruct(beneficiary) => DestroyKeepsUser(s, self, beneficiary, a, nonce);
    case CallOut(kind, to, amount, gas, code) =>
      var at := if kind.Call? || kind.StaticCall? then to else self;
      CallKeepsUser(config, s, kind, self, at, to, amount, gas, depth + 1, code, a, nonce);
    case CreateOut(address, amount, gas, init) =>
      OpKeepsUser(s.w, IncrNonce(self), a, nonce);
      CreateKeepsUser(config, s, self, address, amount, gas, depth + 1, init, a, nonce);
  }

  lemma {:induction false} CallKeepsUser(config: Config, s: S, kind: CallType, caller: Address, at: Address,
                                         to: Address, amount: nat, gas: nat, depth: nat, code: Program,
                                         a: Address, nonce: nat)
    requires IsUser(s.w, a, nonce) && (at != a || to == a)
    ensures IsUser(ApplyCall(config, s, kind, caller, at, to, amount, gas, depth, code).0.w, a, nonce)
    decreases code, 1
  {
    OpKeepsUser(s.w, TouchAccount(at), a, nonce);
    var touched := ApplyWorld(s.w, TouchAccount(at));
    TransferKeepsUser(touched, caller, at, amount, a, nonce);
    var moved := if kind.Call? then Transfer(touched, caller, at, amount) else Some(touched);
    if moved.Some? && at != a {
      OpsKeepUser(config, s.(w := moved.value), at, depth, code.ops, a, nonce);
    }
  }

  /** The creator's own nonce may be the one in question: it counts as raised. */
  lemma {:induction false} CreateKeepsUser(config: Config, s: S, caller: Address, address: Address,
                                           amount: nat, gas: nat, depth: nat, init: Program, a: Address, nonce: nat)
    requires IsUser(ApplyWorld(s.w, IncrNonce(caller)), a, nonce) && (depth > MAX_DEPTH ==> IsUser(s.w, a, nonce))
    ensures IsUser(ApplyCreate(config, s, caller, address, amount, gas, depth, init).0.w, a, nonce)
    decreases init, 1
  {
    var s1 := s.(w := ApplyWorld(s.w, IncrNonce(caller)));
    if depth <= MAX_DEPTH && !HasCodeOrNonce(s1.w, address) {
      CreatedKeepsUser(config, s1.w, address, a, nonce);
      var w2 := Created(config, s1.w, address);
      TransferKeepsUser(w2, caller, address, amount, a, nonce);
      var moved := Transfer(w2, caller, address, amount);
      if moved.Some? {
        var s2 := s1.(w := moved.value);
        OpsKeepUser(config, s2, address, depth, init.ops, a, nonce);
        OpKeepsUser(RunOps(config, s2, address, depth, init.ops).w, SetCode(address, init.codeHash), a, nonce);
      }
    }
  }
}
