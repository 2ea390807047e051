/** Applying transactions to a block: the Transition object of state/executor.go and the gas settlement of
    tievm/evm/evm.go. */
module Executor {
  import opened Types
  import opened Journal
  import opened Calls
  import opened Host
  import opened Txns
  import opened Words

  const TX_GAS := 21000
  const TX_GAS_CONTRACT_CREATION := 53000
  const FEE_POOL: Address := 1

  function Fee(gas: nat, price: nat): nat {
    gas * price
  }

  // ----- Intrinsic gas -----

  function ByteCost(istanbul: bool, b: nat): nat {
    if b == 0 then 4 else if istanbul then 16 else 68
  }

  function PayloadCost(istanbul: bool, input: seq<nat>): nat {
    if input == [] then 0 else PayloadCost(istanbul, input[..|input| - 1]) + ByteCost(istanbul, input[|input| - 1])
  }

  function BaseCost(creation: bool, homestead: bool): nat {
    if creation && homestead then TX_GAS_CONTRACT_CREATION else TX_GAS
  }

  function ZeroBytes(input: seq<nat>): nat {
    if input == [] then 0
    else ZeroBytes(input[..|input| - 1]) + if input[|input| - 1] == 0 then 1 else 0
  }

  /** 4 for a zero byte, and 68 for another, or 16 from Istanbul on. */
  lemma {:induction false} PayloadByKind(istanbul: bool, input: seq<nat>)
    ensures ZeroBytes(input) <= |input|
    ensures PayloadCost(istanbul, input) ==
      4 * ZeroBytes(input) + (if istanbul then 16 else 68) * (|input| - ZeroBytes(input))
  {
    if input != [] {
      PayloadByKind(istanbul, input[..|input| - 1]);
    }
  }

  /** The cost of every byte added up, or None exactly when it does not fit in 64 bits. */
  method TransactionGasCost(creation: bool, input: seq<nat>, homestead: bool, istanbul: bool) returns (r: Option<nat>)
    ensures var cost := BaseCost(creation, homestead) + PayloadCost(istanbul, input);
      r == if cost < TWO64 then Some(cost) else None
  {
    var cost := if creation && homestead then TX_GAS_CONTRACT_CREATION else TX_GAS;
    if |input| > 0 {
      var zeros := 0;
      var perByte := if istanbul then 16 else 68;
      for i := 0 to |input|
        invariant 0 <= zeros <= i
        invariant PayloadCost(istanbul, input[..i]) == 4 * zeros + perByte * (i - zeros)
      {
        assert input[..i + 1][..i] == input[..i];
        if input[i] == 0 {
          zeros := zeros + 1;
        }
      }
      assert input[..|input|] == input;
      var nonZeros := |input| - zeros;
      if (TWO64 - 1 - cost) / perByte < nonZeros {
        return None;
      }
      cost := cost + nonZeros * perByte;
      if (TWO64 - 1 - cost) / 4 < zeros {
        return None;
      }
      cost := cost + zeros * 4;
    }
    return Some(cost);
  }

  // ----- Settling the gas -----

  /** Gas left and gas used, on 64-bit words. */
  function UpdateGasUsed(limit: nat, left: nat, refund: nat): (nat, nat) {
    var used := Wrap64(limit - left);
    var back := Min(refund, used / 2);
    (Wrap64(left + back), used - back)
  }

  /** Gas left and gas used add up to the limit, and what is given back is the refund, or half of what was used if
      that is less. */
  lemma GasAddsUp(limit: nat, left: nat, refund: nat)
    requires left <= limit < TWO64
    ensures var (left', used) := UpdateGasUsed(limit, left, refund);
      var back := left' - left;
      && left' + used == limit && 0 <= back <= refund && 2 * back <= limit - left
      && (back == refund || 2 * back + 1 >= limit - left)
  {
  }

  /** Whatever the interpreter leaves of what it was given, gas left and gas used add up to the limit,
      exactly when the limit covers the intrinsic cost. */
  lemma GasAddsUpExactly(limit: nat, cost: nat)
    requires limit < TWO64 && cost < TWO64
    ensures (forall left: nat, refund: nat :: left <= Wrap64(limit - cost) ==>
               UpdateGasUsed(limit, left, refund).0 + UpdateGasUsed(limit, left, refund).1 == limit)
       <==> cost <= limit
  {
    if cost <= limit {
      forall left: nat, refund: nat | left <= limit - cost
        ensures UpdateGasUsed(limit, left, refund).0 + UpdateGasUsed(limit, left, refund).1 == limit
      {
        GasAddsUp(limit, left, refund);
      }
    } else {
      var left := limit - cost + TWO64;
      WrapBelowZero(limit - cost);
      WrapBelowZero(limit - left);
      assert Wrap64(limit - cost) == left && Wrap64(limit - left) == limit - left + TWO64;
      assert UpdateGasUsed(limit, left, 0).0 + UpdateGasUsed(limit, left, 0).1 == limit + TWO64;
    }
  }

  // ----- One transaction -----

  type Gas = g: nat | g < TWO64

  /** A transaction with what it will meet: the address a creation gets, what its code does, and for the two
      special methods found in the input what the fee pool owes the sender and how many rewards were paid. */
  datatype Tx = Tx(from: Address, to: Option<Address>, nonce: nat, gas: Gas, gasPrice: nat, value: nat,
                   input: seq<nat>, withdraw: bool, fixedReward: bool,
                   contract: Address, program: Program, feeReward: nat, rewardTag: nat)

  function Cost(config: Config, tx: Tx): nat {
    BaseCost(tx.to.None?, config.homestead) + PayloadCost(config.refunds.istanbul, tx.input)
  }

  /** The one case the gas check lets through: a creation whose input holds the fixed reward method. */
  predicate Unguarded(config: Config, tx: Tx) {
    tx.to.None? && tx.fixedReward && tx.gas < Cost(config, tx)
  }

  function AfterGas(w: World, tx: Tx): World {
    ApplyWorld(w, SubBalance(tx.from, Fee(tx.gas, tx.gasPrice)))
  }

  /** What the kind of transaction needs beside the general checks. */
  predicate Payable(w: World, tx: Tx) {
    if tx.to.None? then true
    else if tx.withdraw then
      tx.feeReward > 0 && tx.to.value == FEE_POOL && tx.value <= tx.feeReward && tx.value <= BalanceOf(w, FEE_POOL)
    else if tx.fixedReward then tx.rewardTag <= 1 && tx.value <= BalanceOf(w, tx.to.value)
    else true
  }

  /** The checks a transaction passes before its gas is taken from the pool. */
  predicate TakesGas(w: World, pool: nat, tx: Tx) {
    EntryOrNew(w, tx.from).nonce == tx.nonce && Fee(tx.gas, tx.gasPrice) <= BalanceOf(w, tx.from) && tx.gas <= pool
  }

  /** The checks on the gas limit and the value; w is the world with the gas paid for. */
  predicate Affordable(config: Config, w: World, tx: Tx) {
    && Cost(config, tx) < TWO64
    && (tx.fixedReward || (Cost(config, tx) <= tx.gas && tx.value <= BalanceOf(w, tx.from)))
  }

  /** The transactions a block accepts. */
  predicate Acceptable(config: Config, w: World, pool: nat, tx: Tx) {
    && TakesGas(w, pool, tx)
    && Affordable(config, AfterGas(w, tx), tx)
    && Payable(AfterGas(w, tx), tx)
  }

  /** The value goes from an account to the sender, and the sender's nonce goes up. */
  function PaidOut(w: World, from: Address, tx: Tx): World
    requires tx.value <= BalanceOf(w, from)
  {
    ApplyWorld(Transfer(w, from, tx.from, tx.value).value, IncrNonce(tx.from))
  }

  /** What the transaction's action does, with nothing burnt before. */
  function Effect(config: Config, w: World, tx: Tx, gas: nat): (S, Result)
    requires Payable(w, tx)
  {
    if tx.to.None? then ApplyCreate(config, S(w, 0), tx.from, tx.contract, tx.value, gas, 1, tx.program)
    else if tx.withdraw then
      (S(PaidOut(w, FEE_POOL, tx), 0), Result(0, false))
    else if tx.fixedReward then
      (S(PaidOut(w, tx.to.value, tx), 0), Result(0, false))
    else
      ApplyCall(config, S(ApplyWorld(w, IncrNonce(tx.from)), 0), Call, tx.from, tx.to.value, tx.to.value,
                tx.value, gas, 1, tx.program)
  }

  lemma PaidOutConserves(w: World, from: Address, tx: Tx)
    requires tx.value <= BalanceOf(w, from)
    ensures Total(PaidOut(w, from, tx).accounts) == Total(w.accounts)
  {
    TransferConserves(w, from, tx.from, tx.value);
    OpTotal(Transfer(w, from, tx.from, tx.value).value, IncrNonce(tx.from));
  }

  /** The action conserves the balances and leaves no more gas than it got. */
  lemma EffectConserves(config: Config, w: World, tx: Tx, gas: nat)
    requires Payable(w, tx)
    ensures Supply(Effect(config, w, tx, gas).0) == Total(w.accounts)
    ensures Effect(config, w, tx, gas).1.gasLeft <= gas
    ensures tx.to.Some? && (tx.withdraw || tx.fixedReward) ==> Effect(config, w, tx, gas).1.gasLeft == 0
  {
    if tx.to.None? {
      CreateConserves(config, S(w, 0), tx.from, tx.contract, tx.value, gas, 1, tx.program);
    } else if tx.withdraw || tx.fixedReward {
      PaidOutConserves(w, if tx.withdraw then FEE_POOL else tx.to.value, tx);
    } else {
      OpTotal(w, IncrNonce(tx.from));
      CallConserves(config, S(ApplyWorld(w, IncrNonce(tx.from)), 0), Call, tx.from, tx.to.value, tx.to.value,
                    tx.value, gas, 1, tx.program);
    }
  }

  lemma PayOutRaisesNonce(w: World, from: Address, to: Address, amount: nat)
    requires amount <= BalanceOf(w, from) && !HasCode(w, to)
    ensures IsUser(ApplyWorld(Transfer(w, from, to, amount).value, IncrNonce(to)), to, EntryOrNew(w, to).nonce + 1)
  {
  }

  /** The action raises the nonce of a sender without code by exactly one. */
  lemma EffectRaisesNonce(config: Config, w: World, tx: Tx, gas: nat)
    requires Payable(w, tx) && !HasCode(w, tx.from)
    ensures IsUser(Effect(config, w, tx, gas).0.w, tx.from, EntryOrNew(w, tx.from).nonce + 1)
  {
    var nonce := EntryOrNew(w, tx.from).nonce + 1;
    if tx.to.None? {
      CreateKeepsUser(config, S(w, 0), tx.from, tx.contract, tx.value, gas, 1, tx.program, tx.from, nonce);
    } else if tx.withdraw || tx.fixedReward {
      PayOutRaisesNonce(w, if tx.withdraw then FEE_POOL else tx.to.value, tx.from, tx.value);
    } else {
      CallKeepsUser(config, S(ApplyWorld(w, IncrNonce(tx.from)), 0), Call, tx.from, tx.to.value, tx.to.value,
                    tx.value, gas, 1, tx.program, tx.from, nonce);
    }
  }

  function GasGiven(config: Config, tx: Tx): nat {
    Wrap64(tx.gas - Cost(config, tx))
  }

  /** Returns what was not used to the sender and pays the rest to the fee pool. */
  function Settle(w: World, tx: Tx, gasLeft: nat): (World, nat, nat) {
    var (left, used) := UpdateGasUsed(tx.gas, gasLeft, Wrap64(w.refund));
    var back := ApplyWorld(w, AddBalance(tx.from, Fee(left, tx.gasPrice)));
    (ApplyWorld(back, AddBalance(FEE_POOL, Fee(used, tx.gasPrice))), left, used)
  }

  lemma PayBoth(w: World, a: Address, x: nat, b: Address, y: nat)
    ensures Total(ApplyWorld(ApplyWorld(w, AddBalance(a, x)), AddBalance(b, y)).accounts) == Total(w.accounts) + x + y
  {
    OpTotal(w, AddBalance(a, x));
    OpTotal(ApplyWorld(w, AddBalance(a, x)), AddBalance(b, y));
  }

  lemma Distribute(a: nat, b: nat, p: nat)
    ensures Fee(a, p) + Fee(b, p) == Fee(a + b, p)
  {
  }

  lemma SettleConserves(w: World, tx: Tx, gasLeft: nat)
    requires gasLeft <= tx.gas
    ensures var (w', left, used) := Settle(w, tx, gasLeft);
      Total(w'.accounts) == Total(w.accounts) + Fee(tx.gas, tx.gasPrice) && left + used == tx.gas
  {
    var refund := Wrap64(w.refund);
    GasAddsUp(tx.gas, gasLeft, refund);
    var (left, used) := UpdateGasUsed(tx.gas, gasLeft, refund);
    PayBoth(w, tx.from, Fee(left, tx.gasPrice), FEE_POOL, Fee(used, tx.gasPrice));
    Distribute(left, used, tx.gasPrice);
  }

  /** The world after a transaction, the balance it burnt, the gas left and used, and whether it failed. */
  datatype Outcome = Outcome(s: S, left: nat, used: nat, failed: bool)

  function Executed(config: Config, w: World, tx: Tx, gas: nat): Outcome
    requires Payable(w, tx)
  {
    var (s, result) := Effect(config, w, tx, gas);
    var (w', left, used) := Settle(s.w, tx, result.gasLeft);
    Outcome(S(w', s.burnt), left, used, result.failed)
  }

  /** The outcome of an accepted transaction. */
  function Applied(config: Config, w: World, tx: Tx): Outcome
    requires Payable(AfterGas(w, tx), tx)
  {
    Executed(config, AfterGas(w, tx), tx, GasGiven(config, tx))
  }

  lemma GasGivenFits(config: Config, tx: Tx)
    requires Cost(config, tx) <= tx.gas
    ensures GasGiven(config, tx) == tx.gas - Cost(config, tx)
  {
  }

  lemma BuyGas(w: World, a: Address, amount: nat)
    requires amount <= BalanceOf(w, a)
    ensures Total(ApplyWorld(w, SubBalance(a, amount)).accounts) == Total(w.accounts) - amount
  {
    OpTotal(w, SubBalance(a, amount));
  }

  /** The gas an accepted transaction pays for is returned or goes to the fee pool, so the sum of all
      balances is kept up to what was burnt. */
  lemma AppliedConserves(config: Config, w: World, pool: nat, tx: Tx)
    requires Acceptable(config, w, pool, tx) && !Unguarded(config, tx)
    ensures var o := Applied(config, w, tx); Supply(o.s) == Total(w.accounts) && o.left + o.used == tx.gas
  {
    var w1, gas := AfterGas(w, tx), GasGiven(config, tx);
    BuyGas(w, tx.from, Fee(tx.gas, tx.gasPrice));
    if Cost(config, tx) <= tx.gas {
      GasGivenFits(config, tx);
    }
    EffectConserves(config, w1, tx, gas);
    var (s, result) := Effect(config, w1, tx, gas);
    SettleConserves(s.w, tx, result.gasLeft);
  }

  /** The settlement of a run that gives back more than the limit. */
  lemma SettleOverLimit(w: World, tx: Tx, gasLeft: nat)
    requires tx.gas < gasLeft < TWO64 && w.refund == 0
    ensures Total(Settle(w, tx, gasLeft).0.accounts) == Total(w.accounts) + Fee(tx.gas + TWO64, tx.gasPrice)
  {
    OverLimit(tx.gas, gasLeft);
    var used := tx.gas - gasLeft + TWO64;
    PayBoth(w, tx.from, Fee(gasLeft, tx.gasPrice), FEE_POOL, Fee(used, tx.gasPrice));
    Distribute(gasLeft, used, tx.gasPrice);
  }

  lemma OverLimit(limit: nat, left: nat)
    requires limit < left < TWO64
    ensures UpdateGasUsed(limit, left, 0) == (left, limit - left + TWO64) && Wrap64(0) == 0
  {
    WrapBelowZero(limit - left);
  }

  /** In the unguarded case the sum does grow: by 2^64 times the gas price, when the creation fails without
      using its gas. */
  lemma UnguardedGrows(config: Config, w: World, pool: nat, tx: Tx)
    requires TakesGas(w, pool, tx) && Unguarded(config, tx) && Cost(config, tx) < TWO64 && w.refund == 0
    requires tx.program.failed && tx.program.gasLeft >= TWO64
    requires tx.contract != tx.from && !HasCodeOrNonce(w, tx.contract)
    ensures Acceptable(config, w, pool, tx)
    ensures Supply(Applied(config, w, tx).s) == Total(w.accounts) + Fee(TWO64, tx.gasPrice)
  {
    var paid := Fee(tx.gas, tx.gasPrice);
    BuyGas(w, tx.from, paid);
    WrapBelowZero(tx.gas - Cost(config, tx));
    AfterGasElsewhere(w, tx, tx.contract);
    GrowsBy(config, AfterGas(w, tx), tx, GasGiven(config, tx), Total(w.accounts), paid);
  }

  lemma GrowsBy(config: Config, w: World, tx: Tx, gas: nat, before: nat, paid: nat)
    requires tx.to.None? && tx.program.failed && tx.program.gasLeft >= gas && w.refund == 0
    requires tx.contract != tx.from && !HasCodeOrNonce(w, tx.contract) && tx.gas < gas < TWO64
    requires Total(w.accounts) == before - paid && paid == Fee(tx.gas, tx.gasPrice)
    ensures Supply(Executed(config, w, tx, gas).s) == before + Fee(TWO64, tx.gasPrice)
  {
    ExecutedGrows(config, w, tx, gas);
    Distribute(tx.gas, TWO64, tx.gasPrice);
  }

  lemma AfterGasElsewhere(w: World, tx: Tx, a: Address)
    ensures AfterGas(w, tx).refund == w.refund
    ensures a != tx.from ==> EntryOrNew(AfterGas(w, tx), a) == EntryOrNew(w, a)
    ensures Fee(tx.gas, tx.gasPrice) <= BalanceOf(w, tx.from) ==>
      BalanceOf(AfterGas(w, tx), tx.from) == BalanceOf(w, tx.from) - Fee(tx.gas, tx.gasPrice)
  {
  }

  lemma ExecutedGrows(config: Config, w: World, tx: Tx, gas: nat)
    requires tx.to.None? && tx.program.failed && tx.program.gasLeft >= gas && w.refund == 0
    requires tx.contract != tx.from && !HasCodeOrNonce(w, tx.contract) && tx.gas < gas < TWO64
    ensures Supply(Executed(config, w, tx, gas).s) == Total(w.accounts) + Fee(tx.gas + TWO64, tx.gasPrice)
  {
    FailedCreation(config, w, tx, gas);
    EffectConserves(config, w, tx, gas);
    SettleOverLimit(Effect(config, w, tx, gas).0.w, tx, gas);
  }

  lemma FailedCreation(config: Config, w: World, tx: Tx, gas: nat)
    requires tx.to.None? && tx.program.failed && tx.program.gasLeft >= gas && w.refund == 0
    requires tx.contract != tx.from && !HasCodeOrNonce(w, tx.contract)
    ensures var (s, result) := Effect(config, w, tx, gas);
      result.gasLeft == gas && s.w.refund == 0 && s.burnt == 0
  {
  }

  /** The gas of the run of a guarded transaction: all but what its action leaves. */
  function GasOfRun(config: Config, w: World, tx: Tx): int
    requires Payable(AfterGas(w, tx), tx)
  {
    tx.gas - Effect(config, AfterGas(w, tx), tx, GasGiven(config, tx)).1.gasLeft
  }

  function RefundOfRun(config: Config, w: World, tx: Tx): nat
    requires Payable(AfterGas(w, tx), tx)
  {
    Wrap64(Effect(config, AfterGas(w, tx), tx, GasGiven(config, tx)).0.w.refund)
  }

  /** What an accepted transaction pays for: the gas of its run, which is not less than the intrinsic cost, less the
      refund its action has gathered, or half of that gas if the refund is more. */
  lemma GasPaidFor(config: Config, w: World, pool: nat, tx: Tx)
    requires Acceptable(config, w, pool, tx) && !Unguarded(config, tx)
    ensures var used, run, refund := Applied(config, w, tx).used, GasOfRun(config, w, tx), RefundOfRun(config, w, tx);
      && (tx.to.None? || !(tx.withdraw || tx.fixedReward) ==> run >= Cost(config, tx))
      && (tx.to.Some? && (tx.withdraw || tx.fixedReward) ==> run == tx.gas)
      && (if 2 * refund <= run then used == run - refund else run <= 2 * used <= run + 1)
  {
    var w1, gas := AfterGas(w, tx), GasGiven(config, tx);
    if Cost(config, tx) <= tx.gas {
      GasGivenFits(config, tx);
    }
    EffectConserves(config, w1, tx, gas);
    var (s, result) := Effect(config, w1, tx, gas);
    GasAddsUp(tx.gas, result.gasLeft, Wrap64(s.w.refund));
  }

  // When the sum of all balances is kept whatever the code of the transaction does.

  /** The address of the new contract is taken, if only by the sender. */
  predicate Taken(w: World, tx: Tx) {
    tx.contract == tx.from || HasCodeOrNonce(w, tx.contract)
  }

  lemma FreeGasConserves(config: Config, w: World, tx: Tx)
    requires Payable(AfterGas(w, tx), tx) && tx.gasPrice == 0
    ensures Supply(Applied(config, w, tx).s) == Total(w.accounts)
  {
    var w1, gas := AfterGas(w, tx), GasGiven(config, tx);
    BuyGas(w, tx.from, 0);
    EffectConserves(config, w1, tx, gas);
    var (s, result) := Effect(config, w1, tx, gas);
    var (_, left, used) := Settle(s.w, tx, result.gasLeft);
    PayBoth(s.w, tx.from, Fee(left, 0), FEE_POOL, Fee(used, 0));
  }

  lemma CollisionUsesAll(config: Config, w: World, tx: Tx, gas: nat)
    requires tx.to.None? && Taken(w, tx)
    ensures Effect(config, w, tx, gas).1.gasLeft == 0
  {
  }

  lemma CollisionConserves(config: Config, w: World, pool: nat, tx: Tx)
    requires Acceptable(config, w, pool, tx) && tx.to.None? && Taken(w, tx)
    ensures Supply(Applied(config, w, tx).s) == Total(w.accounts)
  {
    var w1, gas := AfterGas(w, tx), GasGiven(config, tx);
    BuyGas(w, tx.from, Fee(tx.gas, tx.gasPrice));
    AfterGasElsewhere(w, tx, tx.contract);
    CollisionUsesAll(config, w1, tx, gas);
    EffectConserves(config, w1, tx, gas);
    SettleConserves(Effect(config, w1, tx, gas).0.w, tx, 0);
  }

  /** The transaction with this code keeps the sum of all balances. */
  ghost predicate Conserves(config: Config, w: World, tx: Tx, program: Program)
    requires Payable(AfterGas(w, tx), tx)
  {
    Supply(Applied(config, w, tx.(program := program)).s) == Total(w.accounts)
  }

  /** An accepted transaction keeps the sum whatever its code does, exactly when its gas is guarded, costs nothing, or
      its contract cannot be created. The refund counter is 0 at the start of every transaction. */
  lemma ConservesExactly(config: Config, w: World, pool: nat, tx: Tx)
    requires Acceptable(config, w, pool, tx) && w.refund == 0
    ensures (forall program :: Conserves(config, w, tx, program)) <==>
            !Unguarded(config, tx) || tx.gasPrice == 0 || Taken(w, tx)
  {
    if !Unguarded(config, tx) || tx.gasPrice == 0 || Taken(w, tx) {
      forall program ensures Conserves(config, w, tx, program) {
        var tx' := tx.(program := program);
        if tx.gasPrice == 0 {
          FreeGasConserves(config, w, tx');
        } else if !Unguarded(config, tx) {
          AppliedConserves(config, w, pool, tx');
        } else {
          CollisionConserves(config, w, pool, tx');
        }
      }
    } else {
      var program := Program([], true, TWO64, 0, 0);
      UnguardedGrows(config, w, pool, tx.(program := program));
      FeePositive(TWO64, tx.gasPrice);
      assert !Conserves(config, w, tx, program);
    }
  }

  lemma FeePositive(gas: nat, price: nat)
    requires gas > 0 && price > 0
    ensures Fee(gas, price) > 0
  {
  }

  lemma SettleKeepsUser(w: World, tx: Tx, gasLeft: nat, nonce: nat)
    requires IsUser(w, tx.from, nonce)
    ensures IsUser(Settle(w, tx, gasLeft).0, tx.from, nonce)
  {
    var (_, left, used) := Settle(w, tx, gasLeft);
    PayBothKeepsUser(w, tx.from, Fee(left, tx.gasPrice), FEE_POOL, Fee(used, tx.gasPrice), nonce);
  }

  lemma PayBothKeepsUser(w: World, a: Address, x: nat, b: Address, y: nat, nonce: nat)
    requires IsUser(w, a, nonce)
    ensures IsUser(ApplyWorld(ApplyWorld(w, AddBalance(a, x)), AddBalance(b, y)), a, nonce)
  {
    OpKeepsUser(w, AddBalance(a, x), a, nonce);
    OpKeepsUser(ApplyWorld(w, AddBalance(a, x)), AddBalance(b, y), a, nonce);
  }

  lemma AppliedRaisesNonce(config: Config, w: World, tx: Tx)
    requires Payable(AfterGas(w, tx), tx) && !HasCode(w, tx.from)
    ensures IsUser(Applied(config, w, tx).s.w, tx.from, EntryOrNew(w, tx.from).nonce + 1)
  {
    var w1 := AfterGas(w, tx);
    EffectRaisesNonce(config, w1, tx, GasGiven(config, tx));
    var (s, result) := Effect(config, w1, tx, GasGiven(config, tx));
    SettleKeepsUser(s.w, tx, result.gasLeft, EntryOrNew(w, tx.from).nonce + 1);
  }

  /** The pool after a transaction took its gas and gave back what was left, as a 64-bit word. */
  function Refilled(pool: nat, gas: nat, left: nat): nat {
    Wrap64(pool - gas + left)
  }

  lemma AppliedFacts(config: Config, w: World, pool: nat, tx: Tx, o: Outcome)
    requires Acceptable(config, w, pool, tx) && pool < TWO64 && o == Applied(config, w, tx)
    ensures
      && Refilled(pool, tx.gas, o.left) < TWO64
      && (!Unguarded(config, tx) ==>
            Supply(o.s) == Total(w.accounts) && o.used <= tx.gas && Refilled(pool, tx.gas, o.left) == pool - o.used)
      && (!HasCode(w, tx.from) ==> IsUser(o.s.w, tx.from, tx.nonce + 1))
  {
    if !HasCode(w, tx.from) {
      AppliedRaisesNonce(config, w, tx);
    }
    if !Unguarded(config, tx) {
      AppliedConserves(config, w, pool, tx);
    }
  }

  // ----- A plain payment, balance by balance -----

  /** A transaction that pays another account without code. */
  predicate Payment(w: World, tx: Tx) {
    && tx.to.Some? && !tx.withdraw && !tx.fixedReward && !tx.program.failed
    && tx.to.value != tx.from && !HasCode(w, tx.to.value)
  }

  lemma PaymentEffect(config: Config, w: World, tx: Tx, gas: nat, a: Address)
    requires Payment(w, tx) && tx.value <= BalanceOf(w, tx.from)
    ensures var (s, result) := Effect(config, w, tx, gas);
      && !result.failed && result.gasLeft <= gas && s.burnt == 0 && s.w.refund == w.refund
      && BalanceOf(s.w, a)
         == BalanceOf(w, a) - (if a == tx.from then tx.value else 0) + (if a == tx.to.value then tx.value else 0)
  {
    var w1 := ApplyWorld(w, IncrNonce(tx.from));
    var to := tx.to.value;
    assert EntryOrNew(w1, to) == EntryOrNew(w, to) && BalanceOf(w1, a) == BalanceOf(w, a);
    PlainCall(config, S(w1, 0), tx.from, to, tx.value, gas, 1, tx.program);
    var touched := ApplyWorld(w1, TouchAccount(to));
    assert BalanceOf(touched, a) == BalanceOf(w1, a) && BalanceOf(touched, tx.from) == BalanceOf(w1, tx.from);
    TransferMoves(touched, tx.from, to, tx.value, a);
  }

  lemma SettlePays(w: World, tx: Tx, gasLeft: nat, a: Address)
    requires tx.from != FEE_POOL
    ensures var (w', left, used) := Settle(w, tx, gasLeft);
      BalanceOf(w', a) == BalanceOf(w, a) + (if a == tx.from then Fee(left, tx.gasPrice) else 0)
                          + (if a == FEE_POOL then Fee(used, tx.gasPrice) else 0)
  {
  }

  lemma PaymentExecuted(config: Config, w: World, tx: Tx, gas: nat, a: Address)
    requires Payment(w, tx) && tx.value <= BalanceOf(w, tx.from) && gas <= tx.gas && tx.from != FEE_POOL
    ensures var o := Executed(config, w, tx, gas);
      && !o.failed && o.s.burnt == 0 && o.left + o.used == tx.gas
      && BalanceOf(o.s.w, a) == BalanceOf(w, a)
         + (if a == tx.from then Fee(o.left, tx.gasPrice) - tx.value else 0)
         + ((if a == tx.to.value then tx.value else 0) + (if a == FEE_POOL then Fee(o.used, tx.gasPrice) else 0))
  {
    PaymentEffect(config, w, tx, gas, a);
    var (s, result) := Effect(config, w, tx, gas);
    SettlePays(s.w, tx, result.gasLeft, a);
    GasAddsUp(tx.gas, result.gasLeft, Wrap64(s.w.refund));
  }

  /** The balance x of an account after buying the gas, and y after the payment, in terms of the one before. */
  lemma PaymentSums(b: int, x: int, y: int, gas: nat, left: nat, used: nat, price: nat, value: int, sender: bool,
                    rest: int)
    requires left + used == gas && x == b - if sender then Fee(gas, price) else 0
    requires y == x + (if sender then Fee(left, price) - value else 0) + rest
    ensures y == b - (if sender then value + Fee(used, price) else 0) + rest
  {
    Distribute(left, used, price);
  }

  /** A payment costs the sender the value and the price of the gas used, the recipient gets the value, the
      fee pool gets that price, and no other balance changes. */
  lemma PaymentBalances(config: Config, w: World, pool: nat, tx: Tx, a: Address)
    requires Acceptable(config, w, pool, tx) && Payment(w, tx) && tx.from != FEE_POOL
    ensures var o := Applied(config, w, tx);
      && !o.failed && o.s.burnt == 0
      && BalanceOf(o.s.w, a) == BalanceOf(w, a)
         - (if a == tx.from then tx.value + Fee(o.used, tx.gasPrice) else 0)
         + ((if a == tx.to.value then tx.value else 0) + (if a == FEE_POOL then Fee(o.used, tx.gasPrice) else 0))
  {
    AfterGasElsewhere(w, tx, a);
    AfterGasElsewhere(w, tx, tx.to.value);
    GasGivenFits(config, tx);
    var w1, gas := AfterGas(w, tx), GasGiven(config, tx);
    PaymentExecuted(config, w1, tx, gas, a);
    var o := Executed(config, w1, tx, gas);
    PaymentSums(BalanceOf(w, a), BalanceOf(w1, a), BalanceOf(o.s.w, a), tx.gas, o.left, o.used, tx.gasPrice,
                tx.value, a == tx.from,
                (if a == tx.to.value then tx.value else 0) + (if a == FEE_POOL then Fee(o.used, tx.gasPrice) else 0));
  }

  // ----- Payouts, balance by balance -----

  /** A withdrawal from the fee pool, or a fixed reward. */
  predicate Payout(tx: Tx) {
    tx.to.Some? && (tx.withdraw || tx.fixedReward)
  }

  function Payer(tx: Tx): Address
    requires tx.to.Some?
  {
    if tx.withdraw then FEE_POOL else tx.to.value
  }

  lemma PayoutEffect(config: Config, w: World, tx: Tx, gas: nat, a: Address)
    requires Payable(w, tx) && Payout(tx)
    ensures var (s, result) := Effect(config, w, tx, gas);
      && result == Result(0, false) && s.burnt == 0 && s.w.refund == w.refund
      && BalanceOf(s.w, a)
         == BalanceOf(w, a) - (if a == Payer(tx) then tx.value else 0) + (if a == tx.from then tx.value else 0)
  {
    TransferMoves(w, Payer(tx), tx.from, tx.value, a);
  }

  lemma PayoutSettles(config: Config, w: World, tx: Tx, gas: nat, a: Address)
    requires Payable(w, tx) && Payout(tx) && w.refund == 0 && tx.from != FEE_POOL
    ensures var o := Executed(config, w, tx, gas);
      && !o.failed && o.used == tx.gas && o.s.burnt == 0
      && BalanceOf(o.s.w, a) == BalanceOf(w, a) - (if a == Payer(tx) then tx.value else 0)
         + (if a == tx.from then tx.value else 0) + (if a == FEE_POOL then Fee(tx.gas, tx.gasPrice) else 0)
  {
    PayoutEffect(config, w, tx, gas, a);
    var (s, result) := Effect(config, w, tx, gas);
    GasAddsUp(tx.gas, 0, 0);
    SettlePays(s.w, tx, 0, a);
    FeeOfNothing(tx.gasPrice);
  }

  lemma FeeOfNothing(price: nat)
    ensures Fee(0, price) == 0 && Wrap64(0) == 0
  {
  }

  /** A withdrawal takes no more than the sender's reward from the fee pool; a fixed reward comes from the account that
      the transaction names, as long as fewer than two were paid. Either pays the value to the sender, who pays for
      all the gas of the transaction. */
  lemma PayoutBalances(config: Config, w: World, pool: nat, tx: Tx, a: Address)
    requires Acceptable(config, w, pool, tx) && Payout(tx) && w.refund == 0 && tx.from != FEE_POOL
    ensures if tx.withdraw then 0 < tx.feeReward && tx.value <= tx.feeReward && tx.to == Some(FEE_POOL)
            else tx.rewardTag < 2
    ensures var o := Applied(config, w, tx);
      && !o.failed && o.used == tx.gas && o.s.burnt == 0
      && BalanceOf(o.s.w, a) == BalanceOf(w, a)
         - (if a == Payer(tx) then tx.value else 0) + (if a == tx.from then tx.value - Fee(tx.gas, tx.gasPrice) else 0)
         + (if a == FEE_POOL then Fee(tx.gas, tx.gasPrice) else 0)
  {
    AfterGasElsewhere(w, tx, a);
    PayoutSettles(config, AfterGas(w, tx), tx, GasGiven(config, tx), a);
  }

  // ----- The end of a transaction -----

  /** The journal is cleaned of suicided and empty accounts, or committed before Byzantium. */
  function EndOfTx(config: Config, w: World): World {
    if config.byzantium then ApplyWorld(w, CleanDeleteObjects(true))
    else World(NextAccounts(w, config.eip155), {}, [], 0)
  }

  /** The suicided accounts that go; what they still hold is burnt. */
  ghost function Doomed(w: World): map<Address, Entry> {
    map a | a in w.accounts && a in w.touched && w.accounts[a].suicide :: w.accounts[a]
  }

  /** The accounts of m with their balances are those of n and those of d, up to accounts that hold nothing. */
  ghost predicate SplitsAt(m: map<Address, Entry>, n: map<Address, Entry>, d: map<Address, Entry>, a: Address) {
    && (a in n ==> a in m && a !in d && n[a].balance == m[a].balance)
    && (a in d ==> a in m && d[a].balance == m[a].balance)
    && (a in m && a !in n && a !in d ==> m[a].balance == 0)
  }

  lemma {:induction false} TotalSplits(m: map<Address, Entry>, n: map<Address, Entry>, d: map<Address, Entry>)
    requires forall a :: SplitsAt(m, n, d, a)
    ensures Total(m) == Total(n) + Total(d)
    decreases |m|
  {
    if m == map[] {
      assert SplitsAt(m, n, d, 0);
      assert n == map[] && d == map[] by {
        forall a ensures a !in n && a !in d {
          assert SplitsAt(m, n, d, a);
        }
      }
    } else {
      var a :| a in m;
      assert SplitsAt(m, n, d, a);
      TotalWithout(m, a);
      forall b ensures SplitsAt(m - {a}, n - {a}, d - {a}, b) {
        assert SplitsAt(m, n, d, b);
      }
      TotalSplits(m - {a}, n - {a}, d - {a});
      DropOne(n, a);
      DropOne(d, a);
    }
  }

  lemma DropOne(m: map<Address, Entry>, a: Address)
    ensures Total(m) == Total(m - {a}) + if a in m then m[a].balance else 0
  {
    if a in m {
      TotalWithout(m, a);
    } else {
      assert m - {a} == m;
    }
  }

  /** A commit takes exactly the balances of the suicided accounts. */
  lemma CommitConserves(w: World, deleteEmpty: bool)
    ensures Total(w.accounts) == Total(NextAccounts(w, deleteEmpty)) + Total(Doomed(w))
  {
    forall a ensures SplitsAt(w.accounts, NextAccounts(w, deleteEmpty), Doomed(w), a) {
    }
    TotalSplits(w.accounts, NextAccounts(w, deleteEmpty), Doomed(w));
  }

  /** So does the end of a transaction. */
  lemma EndConserves(config: Config, w: World)
    ensures Total(w.accounts) == Total(EndOfTx(config, w).accounts) + Total(Doomed(w))
  {
    forall a ensures SplitsAt(w.accounts, EndOfTx(config, w).accounts, Doomed(w), a) {
    }
    TotalSplits(w.accounts, EndOfTx(config, w).accounts, Doomed(w));
  }

  /** What the end of a transaction leaves to be seen of an account: all but its storage if it was not suicided, and its
      storage too if it was not empty. A suicided account of the transaction is as new. */
  lemma EndShows(config: Config, w: World, a: Address)
    ensures var e, e' := EntryOrNew(w, a), EntryOrNew(EndOfTx(config, w), a);
      && (!e.suicide ==> e'.nonce == e.nonce && e'.balance == e.balance && e'.codeHash == e.codeHash && !e'.suicide)
      && (!e.suicide && (e.nonce != 0 || e.balance != 0 || e.codeHash != EMPTY_CODE_HASH) ==> e'.storage == e.storage)
      && (e.suicide && a in w.touched ==> e' == NEW_ENTRY)
    ensures EndOfTx(config, w).refund == 0
  {
  }

  // ----- The transition -----

  /** What a receipt says of the outcome: before Byzantium the committed state, later whether it failed. */
  datatype Status = Success | Failure | Root(base: Base)

  datatype Receipt = Receipt(gasUsed: nat, cumulativeGasUsed: nat, status: Status, logs: seq<Log>,
                             contract: Option<Address>)

  const NO_RECEIPT := Receipt(0, 0, Failure, [], None)

  function ContractOf(tx: Tx): Option<Address> {
    if tx.to.None? then Some(tx.contract) else None
  }

  /** The status of a transaction that ends in the world w. */
  ghost predicate Tells(config: Config, status: Status, failed: bool, w: World) {
    if config.byzantium then status == if failed then Failure else Success
    else status.Root? && Accounts(status.base, map[]) == w.accounts
  }

  /** The receipt of an accepted transaction that ends in the world w. */
  ghost predicate ReceiptFor(config: Config, tx: Tx, o: Outcome, total: nat, w: World, r: Receipt) {
    && r.gasUsed == o.used && r.cumulativeGasUsed == total && r.logs == o.s.w.logs && r.contract == ContractOf(tx)
    && Tells(config, r.status, o.failed, w)
  }

  /** Every receipt carries the gas used up to it, and total is what the last one carries. */
  ghost predicate Cumulative(receipts: seq<Receipt>, total: nat) {
    if receipts == [] then total == 0
    else
      var last := receipts[|receipts| - 1];
      last.gasUsed <= last.cumulativeGasUsed == total && Cumulative(receipts[..|receipts| - 1], total - last.gasUsed)
  }

  lemma CumulativeNext(receipts: seq<Receipt>, total: nat, r: Receipt)
    requires Cumulative(receipts, total) && r.cumulativeGasUsed == total + r.gasUsed
    ensures Cumulative(receipts + [r], r.cumulativeGasUsed)
  {
    assert (receipts + [r])[..|receipts|] == receipts;
  }

  lemma CumulativeMore(receipts: seq<Receipt>, total: nat, r: Receipt)
    ensures Cumulative(receipts, total) && r.cumulativeGasUsed == total + r.gasUsed ==>
      Cumulative(receipts + [r], r.cumulativeGasUsed)
  {
    if Cumulative(receipts, total) && r.cumulativeGasUsed == total + r.gasUsed {
      CumulativeNext(receipts, total, r);
    }
  }

  /** The world, the gas pool, the gas used and the balance burnt between two transactions. */
  datatype Books = Books(w: World, pool: nat, total: nat, burnt: nat)

  /** What an accepted transaction makes of the books. Unless its gas goes unguarded, pool and gas used keep their sum,
      and the balances theirs with what was burnt. */
  ghost predicate Booked(config: Config, tx: Tx, o: Outcome, before: Books, after: Books) {
    && after.w == EndOfTx(config, ApplyWorld(o.s.w, TakeLogs)) && after.total == before.total + o.used
    && after.pool == Refilled(before.pool, tx.gas, o.left)
    && (!Unguarded(config, tx) ==>
          && Total(after.w.accounts) + after.burnt == Total(before.w.accounts) + before.burnt
          && after.pool + after.total == before.pool + before.total)
  }

  lemma EndBooked(config: Config, tx: Tx, o: Outcome, before: Books, pool: nat, burnt: nat)
    requires pool == Refilled(before.pool, tx.gas, o.left)
    requires !Unguarded(config, tx) ==>
      Total(o.s.w.accounts) + burnt == Total(before.w.accounts) + before.burnt && pool == before.pool - o.used
    ensures var w := ApplyWorld(o.s.w, TakeLogs);
      Booked(config, tx, o, before, Books(EndOfTx(config, w), pool, before.total + o.used, burnt + Total(Doomed(w))))
  {
    EndConserves(config, ApplyWorld(o.s.w, TakeLogs));
  }

  datatype Applying = Rejected | Accepted(used: nat, failed: bool)

  class Transition {
    const config: Config
    const limit: nat
    var state: Txn
    var gasPool: nat
    var totalGas: nat
    var receipts: seq<Receipt>
    /** Balance destroyed so far. */
    ghost var burnt: nat
    /** Gas taken from the pool by transactions that were then rejected. */
    ghost var leaked: nat

    /** What the journal reads as. */
    ghost function World(): World
      reads `state, state, state.Objects()
    {
      state.World()
    }

    /** The gas of the block is in the pool, used, or lost to rejected transactions. */
    ghost predicate Valid()
      reads `gasPool, `totalGas, `leaked, `receipts
    {
      gasPool + totalGas + leaked == limit < TWO64 && Cumulative(receipts, totalGas)
    }

    /** BeginTxn */
    constructor (config: Config, limit: nat, base: Base, spare: nat -> nat)
      requires limit < TWO64
      ensures Valid() && state.Valid() && fresh(state) && this.config == config && this.limit == limit
      ensures state.Abs() == START && state.base == base
      ensures gasPool == limit && receipts == [] && burnt == 0 && leaked == 0
    {
      this.config, this.limit := config, limit;
      gasPool, totalGas, receipts, burnt, leaked := limit, 0, [], 0, 0;
      state := new Txn(base, spare);
    }

    /** A transfer from an account to the sender, with the sender's nonce raised. */
    method PayOut(tx: Tx, from: Address, ghost s: State, ghost live: set<nat>) returns (ok: bool, ghost s': State)
      requires At(state, s, live)
      modifies state
      ensures At(state, s', live) && Keeps(s, s', live)
      ensures ok <==> tx.value <= BalanceOf(Reads(state, s), from)
      ensures ok ==> Reads(state, s') == PaidOut(Reads(state, s), from, tx)
    {
      ok, s' := DoTransfer(state, from, tx.from, tx.value, s, live);
      if ok {
        ghost var s1 := s';
        Step(state, s1, Op.IncrNonce(tx.from), live);
        state.IncrNonce(tx.from);
        s' := Done(state.base, state.spare, s1, Op.IncrNonce(tx.from));
        KeepsTrans(s, s1, s', live);
      }
    }

    method WithdrawTxFee(tx: Tx, to: Address, ghost s: State, ghost live: set<nat>) returns (ok: bool, ghost s': State)
      requires At(state, s, live)
      modifies state
      ensures At(state, s', live) && Keeps(s, s', live)
      ensures ok <==> tx.feeReward > 0 && to == FEE_POOL && tx.value <= tx.feeReward
                      && tx.value <= BalanceOf(Reads(state, s), FEE_POOL)
      ensures ok ==> Reads(state, s') == PaidOut(Reads(state, s), FEE_POOL, tx)
    {
      if tx.feeReward == 0 {
        return false, s;
      }
      if to != FEE_POOL {
        return false, s;
      }
      if tx.feeReward < tx.value {
        return false, s;
      }
      ok, s' := PayOut(tx, FEE_POOL, s, live);
    }

    method SendFixedReward(tx: Tx, to: Address, ghost s: State, ghost live: set<nat>)
        returns (ok: bool, ghost s': State)
      requires At(state, s, live)
      modifies state
      ensures At(state, s', live) && Keeps(s, s', live)
      ensures ok <==> tx.rewardTag <= 1 && tx.value <= BalanceOf(Reads(state, s), to)
      ensures ok ==> Reads(state, s') == PaidOut(Reads(state, s), to, tx)
    {
      if tx.rewardTag > 1 {
        return false, s;
      }
      ok, s' := PayOut(tx, to, s, live);
    }

    /** A call of a contract or account by a transaction. */
    method CallByTx(tx: Tx, to: Address, gas: nat, ghost s: State, ghost live: set<nat>)
        returns (result: Result, ghost s': State, ghost burnt': nat)
      requires At(state, s, live)
      modifies state
      ensures At(state, s', live) && Keeps(s, s', live)
      ensures (S(Reads(state, s'), burnt'), result)
           == ApplyCall(config, S(ApplyWorld(Reads(state, s), IncrNonce(tx.from)), 0), Call, tx.from, to, to,
                        tx.value, gas, 1, tx.program)
    {
      Step(state, s, Op.IncrNonce(tx.from), live);
      state.IncrNonce(tx.from);
      ghost var s1 := Done(state.base, state.spare, s, Op.IncrNonce(tx.from));
      result, s', burnt' := DoApplyCall(state, config, Call, tx.from, to, to, tx.value, gas, 1, tx.program,
                                           s1, live, 0);
      KeepsTrans(s, s1, s', live);
    }

    /** Runs the transaction's action with the gas it has left. */
    method Dispatch(tx: Tx, gas: nat, ghost s: State, ghost live: set<nat>)
        returns (r: Option<Result>, ghost s': State, ghost burnt': nat)
      requires At(state, s, live)
      modifies state
      ensures At(state, s', live) && Keeps(s, s', live)
      ensures r.Some? <==> Payable(Reads(state, s), tx)
      ensures r.Some? ==> (S(Reads(state, s'), burnt'), r.value) == Effect(config, Reads(state, s), tx, gas)
    {
      burnt' := 0;
      if tx.to.None? {
        var result;
        result, s', burnt' := DoApplyCreate(state, config, tx.from, tx.contract, tx.value, gas, 1, tx.program,
                                               s, live, 0);
        return Some(result), s', burnt';
      }
      if tx.withdraw || tx.fixedReward {
        var ok;
        if tx.withdraw {
          ok, s' := WithdrawTxFee(tx, tx.to.value, s, live);
        } else {
          ok, s' := SendFixedReward(tx, tx.to.value, s, live);
        }
        return if ok then Some(Result(0, false)) else None, s', 0;
      }
      var result;
      result, s', burnt' := CallByTx(tx, tx.to.value, gas, s, live);
      return Some(result), s', burnt';
    }

    method SubGasLimitPrice(tx: Tx, ghost s: State, ghost live: set<nat>) returns (ok: bool, ghost s': State)
      requires At(state, s, live)
      modifies state
      ensures At(state, s', live) && Keeps(s, s', live)
      ensures ok <==> Fee(tx.gas, tx.gasPrice) <= BalanceOf(Reads(state, s), tx.from)
      ensures Reads(state, s') == AfterGas(Reads(state, s), tx)
    {
      var upfront := Fee(tx.gas, tx.gasPrice);
      WorldAt(state.base, s.cur.o, tx.from);
      Step(state, s, Op.SubBalance(tx.from, upfront), live);
      ok := state.SubBalance(tx.from, upfront);
      s' := Done(state.base, state.spare, s, Op.SubBalance(tx.from, upfront));
    }

    method SubGasPool(amount: nat) returns (ok: bool)
      modifies `gasPool
      ensures ok <==> amount <= old(gasPool)
      ensures gasPool == if ok then old(gasPool) - amount else old(gasPool)
    {
      if gasPool < amount {
        return false;
      }
      gasPool := gasPool - amount;
      return true;
    }

    /** What is left of the gas that was taken goes back into the pool. */
    method AddGasPool(amount: nat, ghost pool: nat, ghost gas: nat, ghost s: State, ghost live: set<nat>)
      requires At(state, s, live) && gasPool == pool - gas
      modifies `gasPool
      ensures At(state, s, live) && gasPool == Refilled(pool, gas, amount)
    {
      gasPool := Wrap64(gasPool + amount);
    }

    ghost method Burn(amount: nat, s: State)
      requires At(state, s, {})
      modifies `burnt
      ensures At(state, s, {}) && burnt == old(burnt) + amount
    {
      burnt := burnt + amount;
    }

    method AddReceipt(used: nat, status: Status, logs: seq<Log>, contract: Option<Address>, ghost s: State)
      requires At(state, s, {})
      modifies `totalGas, `receipts
      ensures At(state, s, {}) && totalGas == old(totalGas) + used
      ensures receipts == old(receipts) + [Receipt(used, totalGas, status, logs, contract)]
    {
      totalGas := totalGas + used;
      receipts := receipts + [Receipt(used, totalGas, status, logs, contract)];
    }

    method CheckGas(tx: Tx, ghost s: State, ghost live: set<nat>) returns (gas: Option<nat>)
      requires At(state, s, live)
      ensures At(state, s, live)
      ensures gas == if Affordable(config, Reads(state, s), tx) then Some(GasGiven(config, tx)) else None
    {
      var cost := TransactionGasCost(tx.to.None?, tx.input, config.homestead, config.refunds.istanbul);
      if cost.None? {
        return None;
      }
      var gasLeft := Wrap64(tx.gas - cost.value);
      if tx.gas < cost.value {
        WrapBelowZero(tx.gas - cost.value);
      }
      if !tx.fixedReward && gasLeft > tx.gas {
        return None;
      }
      var balance := state.GetBalance(tx.from);
      if !tx.fixedReward && balance < tx.value {
        return None;
      }
      return Some(gasLeft);
    }

    method TakeGas(tx: Tx, ghost s: State, ghost live: set<nat>) returns (ok: bool, ghost s': State)
      requires At(state, s, live)
      modifies `gasPool, state
      ensures At(state, s', live) && Keeps(s, s', live)
      ensures ok <==> TakesGas(Reads(state, s), old(gasPool), tx)
      ensures ok ==> Reads(state, s') == AfterGas(Reads(state, s), tx)
      ensures gasPool == old(gasPool) - if ok then tx.gas else 0
    {
      var nonce := state.GetNonce(tx.from);
      if nonce != tx.nonce {
        return false, s;
      }
      ok, s' := SubGasLimitPrice(tx, s, live);
      if ok {
        ok := SubGasPool(tx.gas);
      }
    }

    method SettleGas(tx: Tx, gasLeft: nat, ghost s: State, ghost live: set<nat>)
        returns (left: nat, used: nat, ghost s': State)
      requires At(state, s, live)
      modifies state
      ensures At(state, s', live) && Keeps(s, s', live)
      ensures var settled := Settle(Reads(state, s), tx, gasLeft);
        Reads(state, s') == settled.0 && left == settled.1 && used == settled.2
    {
      var refund := state.GetRefund();
      var (l, u) := UpdateGasUsed(tx.gas, gasLeft, Wrap64(refund));
      left, used := l, u;
      ghost var s1 := Credit(tx.from, Fee(left, tx.gasPrice), s, live);
      s' := Credit(FEE_POOL, Fee(used, tx.gasPrice), s1, live);
      KeepsTrans(s, s1, s', live);
    }

    method Credit(a: Address, amount: nat, ghost s: State, ghost live: set<nat>) returns (ghost s': State)
      requires At(state, s, live)
      modifies state
      ensures At(state, s', live) && Keeps(s, s', live)
      ensures Reads(state, s') == ApplyWorld(Reads(state, s), AddBalance(a, amount))
    {
      Step(state, s, Op.AddBalance(a, amount), live);
      state.AddBalance(a, amount);
      s' := Done(state.base, state.spare, s, Op.AddBalance(a, amount));
    }

    method Execute(tx: Tx, gas: nat, ghost s: State, ghost live: set<nat>)
        returns (r: Applying, left: nat, ghost s': State, ghost burnt': nat)
      requires At(state, s, live)
      modifies state
      ensures At(state, s', live) && Keeps(s, s', live)
      ensures r.Accepted? <==> Payable(Reads(state, s), tx)
      ensures r.Accepted? ==>
        Outcome(S(Reads(state, s'), burnt'), left, r.used, r.failed) == Executed(config, Reads(state, s), tx, gas)
    {
      left := 0;
      var result;
      ghost var s1;
      result, s1, burnt' := Dispatch(tx, gas, s, live);
      if result.None? {
        return Rejected, 0, s1, 0;
      }
      var used;
      left, used, s' := SettleGas(tx, result.value.gasLeft, s1, live);
      KeepsTrans(s, s1, s', live);
      r := Accepted(used, result.value.failed);
    }

    /** The checks of a transaction in order, and its action with the settlement of its gas. */
    method CheckAndExecute(tx: Tx, ghost s: State, ghost live: set<nat>)
        returns (r: Applying, left: nat, ghost s': State, ghost burnt': nat)
      requires At(state, s, live)
      modifies `gasPool, state
      ensures At(state, s', live) && Keeps(s, s', live)
      ensures r.Accepted? <==> Acceptable(config, Reads(state, s), old(gasPool), tx)
      ensures gasPool == old(gasPool) - if TakesGas(Reads(state, s), old(gasPool), tx) then tx.gas else 0
      ensures r.Accepted? ==>
        Outcome(S(Reads(state, s'), burnt'), left, r.used, r.failed) == Applied(config, Reads(state, s), tx)
    {
      left, burnt' := 0, 0;
      var taken;
      ghost var s1;
      taken, s1 := TakeGas(tx, s, live);
      if !taken {
        return Rejected, 0, s1, 0;
      }
      var gas := CheckGas(tx, s1, live);
      if gas.None? {
        return Rejected, 0, s1, 0;
      }
      r, left, s', burnt' := Execute(tx, gas.value, s1, live);
      KeepsTrans(s, s1, s', live);
    }

    /** A whole transaction; what it did not use goes back to the pool. */
    method ApplyMessage(tx: Tx, ghost s: State, ghost live: set<nat>)
        returns (r: Applying, ghost o: Outcome, ghost s': State)
      requires At(state, s, live)
      modifies `gasPool, state
      ensures At(state, s', live) && Keeps(s, s', live)
      ensures r.Accepted? <==> Acceptable(config, Reads(state, s), old(gasPool), tx)
      ensures r.Rejected? ==>
        gasPool == old(gasPool) - if TakesGas(Reads(state, s), old(gasPool), tx) then tx.gas else 0
      ensures r.Accepted? ==> o == Applied(config, Reads(state, s), tx) && Reads(state, s') == o.s.w
      ensures r.Accepted? ==>
        r.used == o.used && r.failed == o.failed && gasPool == Refilled(old(gasPool), tx.gas, o.left)
    {
      var left;
      ghost var burnt';
      r, left, s', burnt' := CheckAndExecute(tx, s, live);
      o := Outcome(S(Reads(state, s'), burnt'), left, if r.Accepted? then r.used else 0, r.Accepted? && r.failed);
      if r.Accepted? {
        AddGasPool(left, old(gasPool), tx.gas, s', live);
      }
    }

    /** The journal's part of Apply: the transaction is done, or undone by the revert to its snapshot. */
    method ApplyOrRevert(tx: Tx, ghost s: State) returns (r: Applying, ghost o: Outcome, ghost s': State)
      requires At(state, s, {})
      modifies `gasPool, state
      ensures At(state, s', {})
      ensures r.Accepted? <==> Acceptable(config, Reads(state, s), old(gasPool), tx)
      ensures r.Rejected? ==> s'.cur == s.cur
      ensures r.Rejected? ==>
        gasPool == old(gasPool) - if TakesGas(Reads(state, s), old(gasPool), tx) then tx.gas else 0
      ensures r.Accepted? ==> o == Applied(config, Reads(state, s), tx) && Reads(state, s') == o.s.w
      ensures r.Accepted? ==>
        r.used == o.used && r.failed == o.failed && gasPool == Refilled(old(gasPool), tx.gas, o.left)
    {
      var id;
      ghost var s0;
      id, s0 := DoSnapshot(state, s, {});
      r, o, s' := ApplyMessage(tx, s0, {} + {id});
      if r.Rejected? {
        s' := DoRevert(state, id, s, s', {});
      }
    }

    /** A rejected transaction leaves the state as it was; gas it took from the pool is not returned. An
        accepted one, unless its gas went unguarded, conserves the balances up to what it burnt, takes from
        the pool exactly what it used, and raises the nonce of a sender without code by exactly one. */
    method Apply(tx: Tx, ghost s: State) returns (r: Applying, ghost o: Outcome, ghost s': State)
      requires At(state, s, {}) && gasPool < TWO64
      modifies `burnt, `gasPool, state
      ensures At(state, s', {}) && gasPool < TWO64
      ensures r.Accepted? <==> Acceptable(config, Reads(state, s), old(gasPool), tx)
      ensures r.Rejected? ==> s'.cur == s.cur && burnt == old(burnt)
      ensures r.Rejected? ==>
        gasPool == old(gasPool) - if TakesGas(Reads(state, s), old(gasPool), tx) then tx.gas else 0
      ensures r.Accepted? ==> o == Applied(config, Reads(state, s), tx) && Reads(state, s') == o.s.w
      ensures r.Accepted? ==>
        r.used == o.used && r.failed == o.failed && gasPool == Refilled(old(gasPool), tx.gas, o.left)
      ensures r.Accepted? && !Unguarded(config, tx) ==>
        && Total(Reads(state, s').accounts) + burnt == Total(Reads(state, s).accounts) + old(burnt)
        && r.used <= tx.gas && gasPool == old(gasPool) - r.used
      ensures r.Accepted? && !HasCode(Reads(state, s), tx.from) ==> IsUser(Reads(state, s'), tx.from, tx.nonce + 1)
    {
      ghost var pool := gasPool;
      r, o, s' := ApplyOrRevert(tx, s);
      if r.Accepted? {
        AppliedFacts(config, Reads(state, s), pool, tx, o);
        Burn(o.s.burnt, s');
      }
    }

    /** The logs of a transaction, which leave the journal. */
    method TakeLogs(ghost s: State) returns (logs: seq<Log>, ghost s': State)
      requires At(state, s, {})
      modifies state
      ensures At(state, s', {}) && logs == Reads(state, s).logs
      ensures Reads(state, s') == ApplyWorld(Reads(state, s), Op.TakeLogs)
    {
      Step(state, s, Op.TakeLogs, {});
      logs := state.Logs();
      s' := Done(state.base, state.spare, s, Op.TakeLogs);
    }

    /** A receipt for a transaction over the block's gas limit; sender is None if it cannot be recovered. */
    method WriteFailedReceipt(sender: Option<Address>, tx: Tx, ghost s: State) returns (ok: bool, ghost s': State)
      requires At(state, s, {})
      modifies `totalGas, `receipts, state
      ensures At(state, s', {}) && (ok <==> sender.Some?) && totalGas == old(totalGas)
      ensures !ok ==> s' == s && receipts == old(receipts)
      ensures ok ==> Reads(state, s') == ApplyWorld(Reads(state, s), Op.TakeLogs)
      ensures ok ==> receipts == old(receipts) + [Receipt(0, totalGas, Failure, Reads(state, s).logs, ContractOf(tx))]
      ensures old(Valid()) ==> Valid()
    {
      if sender.None? {
        return false, s;
      }
      var logs;
      logs, s' := TakeLogs(s);
      CumulativeMore(receipts, totalGas, Receipt(0, totalGas, Failure, logs, ContractOf(tx)));
      AddReceipt(0, Failure, logs, ContractOf(tx), s');
      return true, s';
    }

    /** The journal is cleaned, or committed and begun anew. */
    method EndJournal(failed: bool, ghost s: State) returns (status: Status, ghost s': State)
      requires At(state, s, {})
      modifies `state, state
      ensures At(state, s', {}) && (state == old(state) || fresh(state))
      ensures Reads(state, s') == EndOfTx(config, old(Reads(state, s)))
      ensures Tells(config, status, failed, Reads(state, s'))
    {
      if config.byzantium {
        status := if failed then Failure else Success;
        Step(state, s, Op.CleanDeleteObjects(true), {});
        state.CleanDeleteObjects(true);
        s' := Done(state.base, state.spare, s, Op.CleanDeleteObjects(true));
      } else {
        CommitReads(state.base, s.cur.o, config.eip155);
        var next := state.Commit(config.eip155);
        state := new Txn(next, state.spare);
        s' := START;
        status := Root(next);
      }
    }

    /** The logs are taken and the journal ends; what suicided accounts still held is burnt. */
    method EndTransaction(failed: bool, ghost s: State) returns (logs: seq<Log>, status: Status, ghost s': State)
      requires At(state, s, {})
      modifies `state, state
      ensures At(state, s', {}) && (state == old(state) || fresh(state))
      ensures logs == old(Reads(state, s)).logs
      ensures Reads(state, s') == EndOfTx(config, ApplyWorld(old(Reads(state, s)), Op.TakeLogs))
      ensures Tells(config, status, failed, Reads(state, s'))
    {
      ghost var s1;
      logs, s1 := TakeLogs(s);
      status, s' := EndJournal(failed, s1);
    }

    /** Adds the receipt of an accepted transaction and ends it. */
    method Finish(tx: Tx, used: nat, failed: bool, ghost o: Outcome, ghost before: Books, ghost s: State)
        returns (r: Receipt, ghost s': State)
      requires At(state, s, {}) && Reads(state, s) == o.s.w && used == o.used && failed == o.failed
      requires totalGas == before.total && gasPool == Refilled(before.pool, tx.gas, o.left)
      requires !Unguarded(config, tx) ==>
        && Total(o.s.w.accounts) + burnt == Total(before.w.accounts) + before.burnt && gasPool == before.pool - used
      modifies `state, `burnt, `totalGas, `receipts, state
      ensures At(state, s', {}) && (state == old(state) || fresh(state))
      ensures Booked(config, tx, o, before, Books(Reads(state, s'), gasPool, totalGas, burnt))
      ensures receipts == old(receipts) + [r] && ReceiptFor(config, tx, o, totalGas, Reads(state, s'), r)
    {
      ghost var w := ApplyWorld(o.s.w, Op.TakeLogs);
      var logs, status;
      logs, status, s' := EndTransaction(failed, s);
      r := Receipt(used, totalGas + used, status, logs, ContractOf(tx));
      AddReceipt(used, status, logs, ContractOf(tx), s');
      EndBooked(config, tx, o, before, gasPool, burnt);
      Burn(Total(Doomed(w)), s');
    }

    /** Applies a transaction of a known sender and, if it is accepted, adds its receipt and ends it. */
    method ApplyAndFinish(tx: Tx, ghost s: State)
        returns (ok: bool, ghost o: Outcome, ghost r: Receipt, ghost s': State)
      requires At(state, s, {}) && gasPool < TWO64
      modifies `state, `burnt, `gasPool, `totalGas, `receipts, state
      ensures At(state, s', {}) && gasPool < TWO64 && (state == old(state) || fresh(state))
      ensures ok <==> Acceptable(config, old(Reads(state, s)), old(gasPool), tx)
      ensures !ok ==> state == old(state) && s'.cur == s.cur && burnt == old(burnt)
      ensures !ok ==> receipts == old(receipts) && totalGas == old(totalGas)
      ensures !ok ==> gasPool == old(gasPool) - if TakesGas(old(Reads(state, s)), old(gasPool), tx) then tx.gas else 0
      ensures ok ==> o == Applied(config, old(Reads(state, s)), tx)
      ensures ok ==> Booked(config, tx, o, old(Books(Reads(state, s), gasPool, totalGas, burnt)),
                            Books(Reads(state, s'), gasPool, totalGas, burnt))
      ensures ok ==> receipts == old(receipts) + [r] && ReceiptFor(config, tx, o, totalGas, Reads(state, s'), r)
    {
      ghost var before := Books(Reads(state, s), gasPool, totalGas, burnt);
      var result;
      result, o, s' := Apply(tx, s);
      ok, r := result.Accepted?, NO_RECEIPT;
      if ok {
        r, s' := Finish(tx, result.used, result.failed, o, before, s');
      }
    }

    /** Pool, gas used and gas lost add up to the limit. The receipt carries what the transaction used, its logs, the
        contract it creates, and whether it failed or the state it leaves. */
    method Write(sender: Option<Address>, tx: Tx, ghost s: State)
        returns (ok: bool, ghost o: Outcome, ghost r: Receipt, ghost s': State)
      requires At(state, s, {}) && gasPool < TWO64 && (sender.Some? ==> sender.value == tx.from)
      modifies this, state
      ensures At(state, s', {}) && gasPool < TWO64 && (state == old(state) || fresh(state))
      ensures ok <==> sender.Some? && Acceptable(config, old(Reads(state, s)), old(gasPool), tx)
      ensures !ok ==> state == old(state) && s'.cur == s.cur && burnt == old(burnt)
      ensures !ok ==> receipts == old(receipts) && totalGas == old(totalGas)
      ensures leaked == old(leaked)
        + if !ok && sender.Some? && TakesGas(old(Reads(state, s)), old(gasPool), tx) then tx.gas else 0
      ensures ok ==> o == Applied(config, old(Reads(state, s)), tx)
      ensures ok ==> Booked(config, tx, o, old(Books(Reads(state, s), gasPool, totalGas, burnt)),
                            Books(Reads(state, s'), gasPool, totalGas, burnt))
      ensures ok ==> receipts == old(receipts) + [r] && ReceiptFor(config, tx, o, totalGas, Reads(state, s'), r)
      ensures old(Valid()) && !Unguarded(config, tx) ==> Valid()
    {
      if sender.None? {
        return false, Outcome(S(Reads(state, s), 0), 0, 0, true), NO_RECEIPT, s;
      }
      ok, o, r, s' := ApplyAndFinish(tx, s);
      if !ok {
        leaked := leaked + (old(gasPool) - gasPool);
      } else {
        CumulativeMore(old(receipts), old(totalGas), r);
      }
    }

    /** Commit: the base that the next block starts from. What suicided accounts still hold is burnt. */
    method Commit(ghost s: State) returns (next: Base)
      requires At(state, s, {})
      modifies `burnt, state
      ensures Accounts(next, map[]) == NextAccounts(old(Reads(state, s)), config.eip155)
      ensures Total(Accounts(next, map[])) + burnt == Total(old(Reads(state, s)).accounts) + old(burnt)
    {
      ghost var w := Reads(state, s);
      CommitReads(state.base, s.cur.o, config.eip155);
      CommitConserves(w, config.eip155);
      next := state.Commit(config.eip155);
      burnt := burnt + Total(Doomed(w));
    }

    /** One transaction of a block, as ProcessBlock treats it. */
    method Next(sender: Option<Address>, tx: Tx, ghost s: State) returns (ok: bool, ghost s': State)
      requires At(state, s, {}) && gasPool < TWO64 && (sender.Some? ==> sender.value == tx.from)
      modifies this, state
      ensures At(state, s', {}) && gasPool < TWO64 && (state == old(state) || fresh(state))
      ensures var step := BlockStep(config, limit, Progress(old(Reads(state, s)), old(gasPool)), sender, tx);
        (ok <==> step.Some?) && (ok ==> step.value == Progress(Reads(state, s'), gasPool))
      ensures ok ==> |receipts| == |old(receipts)| + 1 && leaked == old(leaked)
      ensures !Unguarded(config, tx) ==>
        Total(Reads(state, s').accounts) + burnt == Total(old(Reads(state, s)).accounts) + old(burnt)
      ensures !Unguarded(config, tx) && old(Valid()) ==> Valid()
    {
      if tx.gas > limit {
        ok, s' := WriteFailedReceipt(sender, tx, s);
      } else {
        ghost var o, r;
        ok, o, r, s' := Write(sender, tx, s);
      }
    }
  }

  // ----- A block -----

  ghost predicate AllGuarded(config: Config, txs: seq<Tx>) {
    forall i :: 0 <= i < |txs| ==> !Unguarded(config, txs[i])
  }

  /** The world and the gas pool between two transactions of a block. */
  datatype Progress = Progress(w: World, pool: nat)

  /** One transaction of a block; None is an error that stops the block. */
  function BlockStep(config: Config, limit: nat, p: Progress, sender: Option<Address>, tx: Tx): Option<Progress> {
    if sender.None? then None
    else if tx.gas > limit then Some(p.(w := ApplyWorld(p.w, TakeLogs)))
    else if !Acceptable(config, p.w, p.pool, tx) then None
    else
      var o := Applied(config, p.w, tx);
      Some(Progress(EndOfTx(config, ApplyWorld(o.s.w, TakeLogs)), Refilled(p.pool, tx.gas, o.left)))
  }

  /** A transaction stops a block exactly when its sender is unknown, or it is within the limit and not acceptable. One
      over the limit changes no account and no gas pool. */
  lemma BlockStepExactly(config: Config, limit: nat, p: Progress, sender: Option<Address>, tx: Tx)
    ensures var step := BlockStep(config, limit, p, sender, tx);
      && (step.None? <==> sender.None? || (tx.gas <= limit && !Acceptable(config, p.w, p.pool, tx)))
      && (step.Some? && tx.gas > limit ==> step.value.w.accounts == p.w.accounts && step.value.pool == p.pool)
      && (step.Some? && tx.gas <= limit && p.pool <= limit < TWO64 && !Unguarded(config, tx) ==>
            step.value.pool + Applied(config, p.w, tx).used == p.pool)
  {
    if sender.Some? && tx.gas <= limit && Acceptable(config, p.w, p.pool, tx) && p.pool < TWO64 {
      AppliedFacts(config, p.w, p.pool, tx, Applied(config, p.w, tx));
    }
  }

  function BlockRun(config: Config, limit: nat, p: Progress, senders: seq<Option<Address>>,
                    txs: seq<Tx>): Option<Progress>
    requires |senders| == |txs|
  {
    if txs == [] then Some(p)
    else
      var k := |txs| - 1;
      var before := BlockRun(config, limit, p, senders[..k], txs[..k]);
      if before.None? then None else BlockStep(config, limit, before.value, senders[k], txs[k])
  }

  /** The transactions of a block in turn, up to the first that stops it. */
  method RunBlock(t: Transition, base: Base, txs: seq<Tx>, senders: seq<Option<Address>>)
      returns (ok: bool, ghost s: State)
    requires |senders| == |txs| && At(t.state, START, {}) && Reads(t.state, START) == WorldOf(base, EMPTY_OVERLAY)
    requires forall i :: 0 <= i < |txs| && senders[i].Some? ==> senders[i].value == txs[i].from
    requires t.Valid() && t.gasPool == t.limit && t.receipts == [] && t.burnt == 0 && t.leaked == 0
    modifies t, t.state
    ensures At(t.state, s, {}) && (t.state == old(t.state) || fresh(t.state))
    ensures var run := BlockRun(t.config, t.limit, Progress(WorldOf(base, EMPTY_OVERLAY), t.limit), senders, txs);
      (ok <==> run.Some?) && (ok ==> run.value == Progress(Reads(t.state, s), t.gasPool))
    ensures ok ==> |t.receipts| == |txs| && t.leaked == 0
    ensures AllGuarded(t.config, txs) ==>
      t.Valid() && Total(Reads(t.state, s).accounts) + t.burnt == Total(WorldOf(base, EMPTY_OVERLAY).accounts)
  {
    ghost var p := Progress(WorldOf(base, EMPTY_OVERLAY), t.limit);
    s := START;
    for i := 0 to |txs|
      invariant At(t.state, s, {}) && (t.state == old(t.state) || fresh(t.state))
      invariant t.gasPool < TWO64 && |t.receipts| == i && t.leaked == 0
      invariant BlockRun(t.config, t.limit, p, senders[..i], txs[..i]) == Some(Progress(Reads(t.state, s), t.gasPool))
      invariant AllGuarded(t.config, txs) ==>
        t.Valid() && Total(Reads(t.state, s).accounts) + t.burnt == Total(p.w.accounts)
    {
      assert txs[..i + 1][..i] == txs[..i] && senders[..i + 1][..i] == senders[..i];
      ok, s := t.Next(senders[i], txs[i], s);
      if !ok {
        BlockStops(t.config, t.limit, p, senders, txs, i + 1);
        return;
      }
    }
    assert txs[..|txs|] == txs && senders[..|txs|] == senders;
    ok := true;
  }

  /** What a block makes of a base: the accounts that are committed, and the gas left in the pool. */
  function BlockResult(config: Config, limit: nat, base: Base, senders: seq<Option<Address>>, txs: seq<Tx>)
      : Option<(map<Address, Entry>, nat)>
    requires |senders| == |txs|
  {
    match BlockRun(config, limit, Progress(WorldOf(base, EMPTY_OVERLAY), limit), senders, txs)
    case None => None
    case Some(p) => Some((NextAccounts(p.w, config.eip155), p.pool))
  }

  /** A block goes through exactly when every transaction does, and then the base it commits reads as the outcome of
      all of them, and there is one receipt for each. With guarded gas the pool and the gas used add up to the
      limit and the balances are conserved up to what was burnt. */
  method ProcessBlock(config: Config, limit: nat, base: Base, spare: nat -> nat, txs: seq<Tx>,
                      senders: seq<Option<Address>>)
    returns (t: Transition, next: Option<Base>)
    requires limit < TWO64 && |senders| == |txs|
    requires forall i :: 0 <= i < |txs| && senders[i].Some? ==> senders[i].value == txs[i].from
    ensures fresh(t)
    ensures var result := BlockResult(config, limit, base, senders, txs);
      && (next.Some? <==> result.Some?)
      && (next.Some? ==> result.value == (Accounts(next.value, map[]), t.gasPool) && |t.receipts| == |txs|)
    ensures AllGuarded(config, txs) ==>
      && t.gasPool + t.totalGas <= limit
      && Cumulative(t.receipts, t.totalGas)
      && (next.Some? ==> t.gasPool + t.totalGas == limit)
      && Total(if next.Some? then Accounts(next.value, map[]) else t.World().accounts) + t.burnt
         == Total(WorldOf(base, EMPTY_OVERLAY).accounts)
  {
    t := new Transition(config, limit, base, spare);
    ValidIsOnPath(t.state);
    var ok;
    ghost var s;
    ok, s := RunBlock(t, base, txs, senders);
    if !ok {
      return t, None;
    }
    var committed := t.Commit(s);
    next := Some(committed);
  }

  lemma EndClearsRefund(config: Config, w: World)
    ensures EndOfTx(config, w).refund == 0
  {
  }

  /** Every transaction of a block starts with an empty refund counter. */
  lemma {:induction false} RefundStartsAtZero(config: Config, limit: nat, p: Progress, senders: seq<Option<Address>>,
                                              txs: seq<Tx>)
    requires |senders| == |txs| && p.w.refund == 0
    ensures var run := BlockRun(config, limit, p, senders, txs); run.Some? ==> run.value.w.refund == 0
  {
    if txs != [] {
      var k := |txs| - 1;
      RefundStartsAtZero(config, limit, p, senders[..k], txs[..k]);
      var before := BlockRun(config, limit, p, senders[..k], txs[..k]);
      if before.Some? && senders[k].Some? && txs[k].gas <= limit
         && Acceptable(config, before.value.w, before.value.pool, txs[k])
      {
        EndClearsRefund(config, ApplyWorld(Applied(config, before.value.w, txs[k]).s.w, TakeLogs));
      }
    }
  }

  lemma {:induction false} BlockStops(config: Config, limit: nat, p: Progress, senders: seq<Option<Address>>,
                                      txs: seq<Tx>, k: nat)
    requires |senders| == |txs| && k <= |txs| && BlockRun(config, limit, p, senders[..k], txs[..k]).None?
    ensures BlockRun(config, limit, p, senders, txs).None?
    decreases |txs|
  {
    if k < |txs| {
      var n := |txs| - 1;
      assert senders[..n][..k] == senders[..k] && txs[..n][..k] == txs[..k];
      BlockStops(config, limit, p, senders[..n], txs[..n], k);
    } else {
      assert senders[..k] == senders && txs[..k] == txs;
    }
  }
}
