/** The conventional fee, the fee policy on top of it, and dust suppression. */
module Fees {
  import opened Machine

  const MARGINAL_FEE: int := 5_000
  const GRACE_ACTIONS: int := 2

  /** The number of actions a bundle with these counts pays for. */
  function Actions(spends: int, outputs: int): (n: int)
    ensures n >= 2 && n >= spends && n >= outputs
    ensures n == 2 || n == spends || n == outputs
  {
    Max(GRACE_ACTIONS, Max(spends, outputs))
  }

  /** The ZIP 317 fee; the final multiplication is unchecked in the source and may wrap. */
  function RequiredFeeSend(spends: int, outputs: int): uint64 {
    (MARGINAL_FEE * Actions(spends, outputs)) % TWO64
  }

  /** Counts for which the unchecked multiplication is exact. */
  predicate CountsFit(spends: int, outputs: int): (fit: bool)
    ensures fit <==> 5_000 * spends < TWO64 && 5_000 * outputs < TWO64
  {
    MARGINAL_FEE * Actions(spends, outputs) < TWO64
  }

  datatype FeePolicy = FeePolicy(multiplier: uint64, add: uint64) {
    function EffectiveMultiplier(): (m: uint64)
      ensures m > 0
    {
      if multiplier == 0 then 1 else multiplier
    }

    /** The fee over the mathematical integers. */
    function Total(base: nat): nat {
      base * EffectiveMultiplier() + add
    }

    /** The checked computation fails exactly when the true fee does not fit. */
    function Apply(base: uint64): (r: Checked)
      ensures r == if Total(base) < TWO64 then Fits(Total(base)) else Wrapped
      ensures r.Fits? ==> r.value == base * (if multiplier == 0 then 1 else multiplier) + add
    {
      match MulUint64(base, EffectiveMultiplier())
      case Wrapped => Wrapped
      case Fits(v) => AddUint64(v, add)
    }

    lemma TotalMonotone(low: nat, high: nat)
      requires low <= high
      ensures Total(low) <= Total(high)
    {
      assert Total(high) == Total(low) + (high - low) * EffectiveMultiplier();
    }
  }

  /** The fee in plain numbers: 5000 for each of at least two actions, times the multiplier, plus the addend. */
  lemma FeeInNumbers(spends: int, outputs: int, policy: FeePolicy)
    requires 5_000 * spends < TWO64 && 5_000 * outputs < TWO64
    ensures var m := if policy.multiplier == 0 then 1 else policy.multiplier;
            policy.Total(RequiredFeeSend(spends, outputs)) == 5_000 * Actions(spends, outputs) * m + policy.add
  {
    assert RequiredFeeSend(spends, outputs) == 5_000 * Actions(spends, outputs);
  }

  /** Spending one note or two costs the same: both sit under the two-action floor. */
  lemma OneAndTwoSpendsCostTheSame(outputs: int)
    ensures RequiredFeeSend(1, outputs) == RequiredFeeSend(2, outputs)
  {
  }

  /** One more output costs one marginal fee, or nothing while the spends or the floor decide. */
  lemma ChangeOutputCost(spends: int, outputs: int, policy: FeePolicy)
    requires CountsFit(spends, outputs + 1)
    ensures var m := if policy.multiplier == 0 then 1 else policy.multiplier;
            policy.Total(RequiredFeeSend(spends, outputs + 1)) ==
              policy.Total(RequiredFeeSend(spends, outputs)) + if spends > outputs || outputs < 2 then 0 else 5_000 * m
  {
    hide FeePolicy.Total, RequiredFeeSend;
    var m, low, high := if policy.multiplier == 0 then 1 else policy.multiplier, Actions(spends, outputs),
                        Actions(spends, outputs + 1);
    FeeInNumbers(spends, outputs, policy);
    FeeInNumbers(spends, outputs + 1, policy);
    assert high == low || (high == low + 1 && 5_000 * high * m == 5_000 * low * m + 5_000 * m);
  }

  /** Without wrapping, a fee is never below the two-action conventional fee. */
  lemma FeeIsPositive(spends: int, outputs: int, policy: FeePolicy)
    requires CountsFit(spends, outputs)
    ensures policy.Total(RequiredFeeSend(spends, outputs)) >= 10_000
  {
    var base := RequiredFeeSend(spends, outputs);
    assert base == MARGINAL_FEE * Actions(spends, outputs) >= MARGINAL_FEE * GRACE_ACTIONS;
    policy.TotalMonotone(MARGINAL_FEE * GRACE_ACTIONS, base);
  }

  lemma FeeGrowsWithCounts(spends: int, outputs: int, spends': int, outputs': int, policy: FeePolicy)
    requires spends <= spends' && outputs <= outputs' && CountsFit(spends', outputs')
    ensures CountsFit(spends, outputs)
    ensures policy.Total(RequiredFeeSend(spends, outputs)) <= policy.Total(RequiredFeeSend(spends', outputs'))
  {
    policy.TotalMonotone(RequiredFeeSend(spends, outputs), RequiredFeeSend(spends', outputs'));
  }

  datatype Suppression = Suppressed(fee: uint64, suppressed: bool) | InvalidTotals | FeeOverflow

  /**
   * Turns change below the minimum into fee. On totals that cover the outputs and the fee it
   * always succeeds, the fee never shrinks and stays covered, and the change left over is the
   * original one when that is acceptable and nothing otherwise.
   */
  function SuppressDustChange(totalIn: uint64, totalOut: uint64, fee: uint64, minChange: uint64): (r: Suppression)
    ensures totalIn >= totalOut + fee ==>
              && r.Suppressed?
              && fee <= r.fee <= totalIn - totalOut
              && var before, after := totalIn - totalOut - fee, totalIn - totalOut - r.fee;
                 after == if before < minChange then 0 else before
    ensures totalIn < totalOut + fee ==> r == if minChange == 0 then Suppressed(fee, false) else InvalidTotals
    ensures r.Suppressed? ==> (r.suppressed <==> r.fee != fee)
  {
    if minChange == 0 then
      Suppressed(fee, false)
    else if totalIn < totalOut then
      InvalidTotals
    else
      var rem := totalIn - totalOut;
      if rem < fee then
        InvalidTotals
      else
        var change := rem - fee;
        if change == 0 || change >= minChange then
          Suppressed(fee, false)
        else
          match AddUint64(fee, change)
          case Wrapped => FeeOverflow
          case Fits(newFee) => Suppressed(newFee, true)
  }

  /** The first height the transaction cannot be mined at any more; both additions are in 32 bits. */
  function ExpiryHeightFromTip(tip: uint32, offset: uint32): (r: Option<uint32>)
    ensures r == if tip + 1 + offset < TWO32 then Some(tip + 1 + offset) else None
  {
    if tip == TWO32 - 1 then
      None
    else
      var next := tip + 1;
      var expiry := (next + offset) % TWO32;
      if expiry < next then None else Some(expiry)
  }
}
