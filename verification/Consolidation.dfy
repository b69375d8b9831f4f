/**
 * Note selection for a consolidation: spend as many notes as possible, and among those choices
 * as many of the smallest notes as the fee allows.
 */
module Consolidation {
  import opened Machine
  import opened Notes
  import opened Fees

  const MAX_ORCHARD_SPEND_NOTES: int := 200
  const DEFAULT_MAX_SPENDS: int := 50

  datatype Consolidation = Consolidated(notes: seq<Note>, fee: uint64) | NotEnough | Overflow | InvalidRequest

  /** The fee for `k` spends into one output. */
  function SpendFee(policy: FeePolicy, k: int): nat {
    policy.Total(RequiredFeeSend(k, 1))
  }

  /** The `t` smallest notes and the `k - t` largest ones. */
  function Ends(asc: seq<Note>, k: nat, t: nat): seq<Note>
    requires t <= k <= |asc|
  {
    asc[..t] + asc[|asc| - (k - t)..]
  }

  /** The largest number of small notes, at most `t`, with which `k` notes exceed the fee; -1 if none. */
  function MostSmall(asc: seq<Note>, k: nat, fee: uint64, t: int): (r: int)
    requires -1 <= t <= k <= |asc|
    ensures -1 <= r <= t
    ensures r >= 0 ==> Sum(Ends(asc, k, r)) > fee
    ensures forall u :: r < u <= t ==> Sum(Ends(asc, k, u)) <= fee
    decreases t + 1
  {
    hide Sum;
    if t < 0 || Sum(Ends(asc, k, t)) > fee then t else MostSmall(asc, k, fee, t - 1)
  }

  function LargestSpend(asc: seq<Note>, policy: FeePolicy, k: nat): Consolidation
    requires k <= |asc|
  {
    if k < 2 then
      NotEnough
    else
      match policy.Apply(RequiredFeeSend(k, 1))
      case Wrapped => Overflow
      case Fits(fee) =>
        var t := MostSmall(asc, k, fee, k);
        if t < 0 then LargestSpend(asc, policy, k - 1) else Consolidated(Ends(asc, k, t), fee)
  }

  /** The number of notes one consolidation may spend; nothing when the setting is out of range. */
  function SpendLimit(maxSpends: int, candidates: nat): (r: Option<nat>)
    ensures r.Some? <==> maxSpends == 0 || 2 <= maxSpends <= 200
    ensures r.Some? ==>
              var wanted := if maxSpends == 0 then 50 else maxSpends;
              r.value <= wanted && r.value <= candidates && (r.value == wanted || r.value == candidates)
  {
    var wanted := if maxSpends == 0 then DEFAULT_MAX_SPENDS else maxSpends;
    if wanted < 2 || wanted > MAX_ORCHARD_SPEND_NOTES then
      None
    else
      Some(if wanted > candidates then candidates else wanted)
  }

  function Consolidate(notes: seq<Note>, maxSpends: int, policy: FeePolicy): Consolidation {
    match SpendLimit(maxSpends, |notes|)
    case None => InvalidRequest
    case Some(limit) =>
      if Sum(notes) >= TWO64 then Overflow else LargestSpend(SortNotes(notes, false), policy, limit)
  }

  // ----- prefix and suffix sums -----

  lemma SumIsOrderFree(a: seq<Note>, b: seq<Note>)
    requires multiset(a) == multiset(b)
    ensures Sum(a) == Sum(b)
  {
    SumIsMonotone(a, b);
    SumIsMonotone(b, a);
  }

  lemma SumDrop(asc: seq<Note>, i: nat)
    requires i < |asc|
    ensures Sum(asc[|asc| - i - 1..]) == Sum(asc[|asc| - i..]) + asc[|asc| - 1 - i].value
  {
    var m := |asc| - i - 1;
    assert asc[m..] == [asc[m]] + asc[m + 1..];
    SumConcat([asc[m]], asc[m + 1..]);
    assert [asc[m]][..0] == [];
  }

  lemma SliceFits(asc: seq<Note>, k: nat)
    requires k <= |asc|
    ensures Sum(asc[..k]) <= Sum(asc) && Sum(asc[|asc| - k..]) <= Sum(asc)
  {
    SumSplit(asc, k);
    SumSplit(asc, |asc| - k);
  }

  /** The two ends never overlap, so once all notes together fit no inner sum overflows. */
  lemma EndsFit(asc: seq<Note>, k: nat, t: nat)
    requires t <= k <= |asc|
    ensures t <= |asc| - (k - t)
    ensures Sum(Ends(asc, k, t)) == Sum(asc[..t]) + Sum(asc[|asc| - (k - t)..]) <= Sum(asc)
  {
    var m := |asc| - (k - t);
    SumSplit(asc, m);
    SumSplit(asc[..m], t);
    assert asc[..m][..t] == asc[..t];
    SumConcat(asc[..t], asc[m..]);
  }

  lemma EndsAreDistinctNotes(asc: seq<Note>, k: nat, t: nat)
    requires t <= k <= |asc|
    ensures multiset(Ends(asc, k, t)) <= multiset(asc)
  {
    var m := |asc| - (k - t);
    assert asc == asc[..t] + asc[t..m] + asc[m..];
  }

  method PrefixSums(asc: seq<Note>) returns (prefix: array<uint64>, ok: bool)
    ensures fresh(prefix) && prefix.Length == |asc| + 1
    ensures ok <==> Sum(asc) < TWO64
    ensures ok ==> forall i :: 0 <= i <= |asc| ==> prefix[i] == Sum(asc[..i])
  {
    prefix := new uint64[|asc| + 1](_ => 0);
    for i := 0 to |asc|
      invariant forall h :: 0 <= h <= i ==> prefix[h] == Sum(asc[..h])
    {
      SumTake(asc, i);
      SliceFits(asc, i + 1);
      var v := AddUint64(prefix[i], asc[i].value);
      if v == Wrapped {
        return prefix, false;
      }
      prefix[i + 1] := v.value;
    }
    assert asc[..|asc|] == asc;
    return prefix, true;
  }

  method SuffixSums(asc: seq<Note>) returns (suffix: array<uint64>, ok: bool)
    ensures fresh(suffix) && suffix.Length == |asc| + 1
    ensures ok <==> Sum(asc) < TWO64
    ensures ok ==> forall i :: 0 <= i <= |asc| ==> suffix[i] == Sum(asc[|asc| - i..])
  {
    suffix := new uint64[|asc| + 1](_ => 0);
    for i := 0 to |asc|
      invariant forall h :: 0 <= h <= i ==> suffix[h] == Sum(asc[|asc| - h..])
    {
      SumDrop(asc, i);
      SliceFits(asc, i + 1);
      var v := AddUint64(suffix[i], asc[|asc| - 1 - i].value);
      if v == Wrapped {
        return suffix, false;
      }
      suffix[i + 1] := v.value;
    }
    assert asc[|asc| - |asc|..] == asc;
    assert suffix[|asc|] == Sum(asc);
    return suffix, true;
  }

  /** The inner loop: `k` notes, trying fewer and fewer of the small ones. */
  method FindMostSmall(asc: seq<Note>, prefix: array<uint64>, suffix: array<uint64>, k: nat, fee: uint64)
    returns (bestT: int)
    requires k <= |asc| && Sum(asc) < TWO64
    requires prefix.Length == |asc| + 1 && forall i :: 0 <= i <= |asc| ==> prefix[i] == Sum(asc[..i])
    requires suffix.Length == |asc| + 1 && forall i :: 0 <= i <= |asc| ==> suffix[i] == Sum(asc[|asc| - i..])
    ensures bestT == MostSmall(asc, k, fee, k)
  {
    var t: int := k;
    while t >= 0
      invariant -1 <= t <= k
      invariant MostSmall(asc, k, fee, k) == MostSmall(asc, k, fee, t)
    {
      EndsFit(asc, k, t);
      var total := AddUint64(prefix[t], suffix[k - t]);
      assert total.Fits?;  // the source's overflow return here is unreachable
      if total.value > fee {
        return t;
      }
      t := t - 1;
    }
    return -1;
  }

  /** The outer loop: fewer and fewer notes until some choice of that many exceeds its fee. */
  method FindLargestSpend(asc: seq<Note>, prefix: array<uint64>, suffix: array<uint64>, policy: FeePolicy, limit: nat)
    returns (r: Consolidation)
    requires limit <= |asc| && Sum(asc) < TWO64
    requires prefix.Length == |asc| + 1 && forall i :: 0 <= i <= |asc| ==> prefix[i] == Sum(asc[..i])
    requires suffix.Length == |asc| + 1 && forall i :: 0 <= i <= |asc| ==> suffix[i] == Sum(asc[|asc| - i..])
    ensures r == LargestSpend(asc, policy, limit)
  {
    hide Sum, MostSmall, FeePolicy.Total, RequiredFeeSend, Ordered;
    var k: nat := limit;
    while k >= 2
      invariant k <= limit
      invariant LargestSpend(asc, policy, limit) == LargestSpend(asc, policy, k)
    {
      var fee := policy.Apply(RequiredFeeSend(k, 1));
      if fee == Wrapped {
        return Overflow;
      }
      var bestT := FindMostSmall(asc, prefix, suffix, k, fee.value);
      if bestT >= 0 {
        var selected := asc[..bestT];
        if k - bestT > 0 {
          selected := selected + asc[|asc| - (k - bestT)..];
        }
        assert selected == Ends(asc, k, bestT);
        return Consolidated(selected, fee.value);
      }
      k := k - 1;
    }
    return NotEnough;
  }

  method SelectNotesForConsolidation(notes: seq<Note>, maxSpends: int, feePolicy: FeePolicy)
    returns (r: Consolidation)
    ensures r == Consolidate(notes, maxSpends, feePolicy)
  {
    hide Sum, LargestSpend, SortNotes, Ordered;
    var limit := SpendLimit(maxSpends, |notes|);
    if limit.None? {
      return InvalidRequest;
    }
    var notesAsc := SortNotes(notes, false);
    SumIsOrderFree(notesAsc, notes);
    var prefix, prefixOk := PrefixSums(notesAsc);
    if !prefixOk {
      return Overflow;
    }
    var suffix, suffixOk := SuffixSums(notesAsc);
    assert suffixOk;  // the source's second overflow return is unreachable
    r := FindLargestSpend(notesAsc, prefix, suffix, feePolicy, limit.value);
  }

  // ----- theorems -----

  ghost predicate NoneExceeds(asc: seq<Note>, policy: FeePolicy, j: nat)
    requires j <= |asc|
  {
    Sum(Ends(asc, j, 0)) <= SpendFee(policy, j)
  }

  /** The answer takes some number of small notes, and with one more small note it would fall short. */
  ghost predicate FromEnds(asc: seq<Note>, s: seq<Note>, fee: uint64) {
    |s| <= |asc| && exists t :: 0 <= t <= |s| && t == MostSmall(asc, |s|, fee, |s|) && s == Ends(asc, |s|, t)
  }

  lemma {:induction false} LargestSpendIsMaximal(asc: seq<Note>, policy: FeePolicy, k: nat)
    requires k <= |asc|
    ensures match LargestSpend(asc, policy, k)
            case InvalidRequest => false
            case Overflow => exists j :: 2 <= j <= k && SpendFee(policy, j) >= TWO64
            case NotEnough => forall j :: 2 <= j <= k ==> NoneExceeds(asc, policy, j)
            case Consolidated(s, fee) =>
              && 2 <= |s| <= k && fee == SpendFee(policy, |s|) && FromEnds(asc, s, fee)
              && forall j :: |s| < j <= k ==> NoneExceeds(asc, policy, j)
  {
    hide SpendFee, Sum, MostSmall, LargestSpend, NoneExceeds;
    LargestSpendStep(asc, policy, k);
    if k >= 2 && SpendFee(policy, k) < TWO64 && MostSmall(asc, k, SpendFee(policy, k), k) < 0 {
      LargestSpendIsMaximal(asc, policy, k - 1);
    }
  }

  /** One round of the outer loop. */
  lemma LargestSpendStep(asc: seq<Note>, policy: FeePolicy, k: nat)
    requires k <= |asc|
    ensures k < 2 ==> LargestSpend(asc, policy, k) == NotEnough
    ensures k >= 2 ==>
              var fee := SpendFee(policy, k);
              if fee >= TWO64 then
                LargestSpend(asc, policy, k) == Overflow
              else
                var t := MostSmall(asc, k, fee, k);
                if t < 0 then
                  LargestSpend(asc, policy, k) == LargestSpend(asc, policy, k - 1) && NoneExceeds(asc, policy, k)
                else
                  LargestSpend(asc, policy, k) == Consolidated(Ends(asc, k, t), fee) && |Ends(asc, k, t)| == k
  {
    hide FeePolicy.Total, RequiredFeeSend, Sum, MostSmall;
  }

  /** No choice of as many notes is worth more than the ends without any small note. */
  lemma NoneExceedsForAll(notes: seq<Note>, policy: FeePolicy, c: seq<Note>)
    requires multiset(c) <= multiset(notes)
    requires |c| <= |notes| ==> NoneExceeds(SortNotes(notes, false), policy, |c|)
    ensures Sum(c) <= SpendFee(policy, |c|)
  {
    hide SpendFee, Sum, Ordered, SortNotes;
    var asc := SortNotes(notes, false);
    LargestAreLast(asc, c);
    assert |asc| == |notes|;
    assert Ends(asc, |c|, 0) == asc[|asc| - |c|..];
  }

  /** What `k` spends into one output cost under the policy, in plain numbers. */
  function CostOf(k: nat, policy: FeePolicy): nat {
    5_000 * k * (if policy.multiplier == 0 then 1 else policy.multiplier) + policy.add
  }

  lemma SpendFeeIsCost(k: nat, policy: FeePolicy)
    requires 2 <= k <= 200
    ensures SpendFee(policy, k) == CostOf(k, policy)
  {
    FeeInNumbers(k, 1, policy);
  }

  /** The number of notes the caller allows one consolidation to spend. */
  function Allowed(maxSpends: int): int {
    if maxSpends == 0 then 50 else maxSpends
  }

  /** Spends between two and the allowed number of the candidates, and they are worth more than their own fee. */
  lemma ConsolidationIsSound(notes: seq<Note>, maxSpends: int, policy: FeePolicy)
    requires Consolidate(notes, maxSpends, policy).Consolidated?
    ensures 2 <= Allowed(maxSpends) <= 200
    ensures var Consolidated(s, fee) := Consolidate(notes, maxSpends, policy);
            && multiset(s) <= multiset(notes)
            && 2 <= |s| <= Allowed(maxSpends) && |s| <= |notes|
            && fee == CostOf(|s|, policy) < Sum(s)
            && Sum(s) <= Sum(notes) < TWO64
  {
    hide SpendFee, Sum, LargestSpend, SortNotes, Ordered, CostOf;
    var asc := SortNotes(notes, false);
    LargestSpendIsMaximal(asc, policy, SpendLimit(maxSpends, |notes|).value);
    var Consolidated(s, fee) := Consolidate(notes, maxSpends, policy);
    var t :| 0 <= t <= |s| && t == MostSmall(asc, |s|, fee, |s|) && s == Ends(asc, |s|, t);
    EndsFit(asc, |s|, t);
    EndsAreDistinctNotes(asc, |s|, t);
    SumIsOrderFree(asc, notes);
    SpendFeeIsCost(|s|, policy);
  }

  /**
   * Maximality: spending more notes than the answer, or any number when there is none, would
   * cost at least what the notes are worth, whichever notes are taken.
   */
  lemma ConsolidationIsMaximal(notes: seq<Note>, maxSpends: int, policy: FeePolicy, c: seq<Note>)
    requires var r := Consolidate(notes, maxSpends, policy);
             || (r.Consolidated? && |c| > |r.notes|)
             || (r.NotEnough? && |c| >= 2)
    requires multiset(c) <= multiset(notes)
    requires |c| <= Allowed(maxSpends)
    ensures Sum(c) <= CostOf(|c|, policy)
  {
    hide SpendFee, Sum, LargestSpend, SortNotes, Ordered, NoneExceeds, CostOf;
    LargestSpendIsMaximal(SortNotes(notes, false), policy, SpendLimit(maxSpends, |notes|).value);
    LargestAreLast(SortNotes(notes, false), c);
    NoneExceedsForAll(notes, policy, c);
    SpendFeeIsCost(|c|, policy);
  }

  /** No consolidation of a legal number of candidates is worth more than its fee. */
  ghost predicate NothingToConsolidate(notes: seq<Note>, maxSpends: int, policy: FeePolicy) {
    forall c :: multiset(c) <= multiset(notes) && 2 <= |c| <= Allowed(maxSpends) ==> Sum(c) <= CostOf(|c|, policy)
  }

  /**
   * Every outcome, decided before the call: a setting out of range is invalid; then a wallet
   * total or a fee for the most spends that does not fit overflows; then notes are returned
   * exactly when some choice of a legal number of notes is worth more than its own fee.
   */
  lemma ConsolidationOutcome(notes: seq<Note>, maxSpends: int, policy: FeePolicy)
    ensures var r, most := Consolidate(notes, maxSpends, policy), Allowed(maxSpends);
            var k := if most < |notes| then most else |notes|;
            if most < 2 || most > 200 then r == InvalidRequest
            else if Sum(notes) >= TWO64 || (k >= 2 && CostOf(k, policy) >= TWO64) then r == Overflow
            else if NothingToConsolidate(notes, maxSpends, policy) then r == NotEnough
            else r.Consolidated?
  {
    hide SpendFee, Sum, LargestSpend, SortNotes, Ordered, NoneExceeds, CostOf;
    var limit := SpendLimit(maxSpends, |notes|);
    if limit.Some? && Sum(notes) < TWO64 {
      var asc := SortNotes(notes, false);
      LargestSpendIsMaximal(asc, policy, limit.value);
      LargestSpendStep(asc, policy, limit.value);
      if limit.value >= 2 {
        SpendFeeIsCost(limit.value, policy);
        if CostOf(limit.value, policy) < TWO64 {
          SmallerCostsFit(limit.value, policy);
        }
      }
      OutcomeIsTruthful(notes, maxSpends, policy);
    }
  }

  lemma SmallerCostsFit(k: nat, policy: FeePolicy)
    requires k <= 200 && CostOf(k, policy) < TWO64
    ensures forall j :: 2 <= j <= k ==> SpendFee(policy, j) < TWO64
  {
    hide SpendFee;
    forall j | 2 <= j <= k
      ensures SpendFee(policy, j) < TWO64
    {
      SpendFeeIsCost(j, policy);
      SpendFeeIsCost(k, policy);
      FeeGrowsWithCounts(j, 1, k, 1, policy);
      FeeInNumbers(j, 1, policy);
      FeeInNumbers(k, 1, policy);
    }
  }

  lemma OutcomeIsTruthful(notes: seq<Note>, maxSpends: int, policy: FeePolicy)
    ensures var r := Consolidate(notes, maxSpends, policy);
            && (r.NotEnough? ==> NothingToConsolidate(notes, maxSpends, policy))
            && (r.Consolidated? ==> !NothingToConsolidate(notes, maxSpends, policy))
  {
    hide Sum, Consolidate, CostOf;
    var r := Consolidate(notes, maxSpends, policy);
    if r.NotEnough? {
      forall c | multiset(c) <= multiset(notes) && 2 <= |c| <= Allowed(maxSpends)
        ensures Sum(c) <= CostOf(|c|, policy)
      {
        ConsolidationIsMaximal(notes, maxSpends, policy, c);
      }
    } else if r.Consolidated? {
      ConsolidationIsSound(notes, maxSpends, policy);
    }
  }

  /**
   * Preference for small notes: the answer is the `t` smallest notes and the `k - t` largest,
   * and if `t < k` then no `k` notes that include the `t + 1` smallest exceed the fee.
   */
  lemma ConsolidationPrefersSmallNotes(notes: seq<Note>, maxSpends: int, policy: FeePolicy) returns (t: nat)
    requires Consolidate(notes, maxSpends, policy).Consolidated?
    ensures var Consolidated(s, fee) := Consolidate(notes, maxSpends, policy);
            var asc, k := SortNotes(notes, false), |s|;
            && t <= k <= |asc| && s == asc[..t] + asc[|asc| - (k - t)..]
            && (t < k ==> forall rest: seq<Note> ::
                  |rest| == k - t - 1 && multiset(rest) <= multiset(asc[t + 1..]) ==>
                    Sum(asc[..t + 1] + rest) <= fee)
  {
    hide SpendFee, Sum, LargestSpend, SortNotes, Ends, Ordered;
    var Consolidated(s, fee) := Consolidate(notes, maxSpends, policy);
    var asc, k := SortNotes(notes, false), |s|;
    LargestSpendIsMaximal(asc, policy, SpendLimit(maxSpends, |notes|).value);
    t :| 0 <= t <= |s| && t == MostSmall(asc, |s|, fee, |s|) && s == Ends(asc, |s|, t);
    EndsAre(asc, k, t);
    if t < k {
      forall rest: seq<Note> | |rest| == k - t - 1 && multiset(rest) <= multiset(asc[t + 1..])
        ensures Sum(asc[..t + 1] + rest) <= fee
      {
        OneMoreSmallNote(asc, k, t + 1, rest);
        assert Sum(Ends(asc, k, t + 1)) <= fee;
      }
    }
  }

  lemma EndsAre(asc: seq<Note>, k: nat, t: nat)
    requires t <= k <= |asc|
    ensures Ends(asc, k, t) == asc[..t] + asc[|asc| - (k - t)..]
  {
  }

  /** Once the small notes are fixed, completing them with the largest notes is best. */
  lemma OneMoreSmallNote(asc: seq<Note>, k: nat, t: nat, rest: seq<Note>)
    requires Ordered(asc, false)
    requires t <= k <= |asc|
    requires |rest| == k - t && multiset(rest) <= multiset(asc[t..])
    ensures Sum(asc[..t] + rest) <= Sum(Ends(asc, k, t))
  {
    hide Sum, Before;
    var tail := asc[t..];
    LargestAreLast(tail, rest);
    assert tail[|tail| - |rest|..] == asc[|asc| - (k - t)..];
    SumConcat(asc[..t], rest);
    SumConcat(asc[..t], asc[|asc| - (k - t)..]);
  }

  /** If all notes together and the fee for the largest spend fit, no overflow error is returned. */
  lemma ConsolidationOverflowNeedsLargeNumbers(notes: seq<Note>, maxSpends: int, policy: FeePolicy)
    requires Sum(notes) < TWO64
    requires CostOf(200, policy) < TWO64
    ensures !Consolidate(notes, maxSpends, policy).Overflow?
  {
    hide SpendFee, Sum, Consolidate, CostOf;
    ConsolidationOutcome(notes, maxSpends, policy);
    SmallerCostsFit(200, policy);
    forall k | 2 <= k <= 200
      ensures CostOf(k, policy) < TWO64
    {
      SpendFeeIsCost(k, policy);
    }
  }

  /** The answer depends on the candidates only as a multiset, never on their order. */
  lemma ConsolidationIgnoresOrder(a: seq<Note>, b: seq<Note>, maxSpends: int, policy: FeePolicy)
    requires multiset(a) == multiset(b)
    ensures Consolidate(a, maxSpends, policy) == Consolidate(b, maxSpends, policy)
  {
    hide Sum, LargestSpend, SortNotes, Ordered;
    SortIgnoresOrder(a, b, false);
    SumIsOrderFree(a, b);
    assert |multiset(a)| == |a| && |multiset(b)| == |b|;
  }
}
