/**
 * Note selection for a send: the five-phase search of `SelectNotesWithFeePolicy`.
 *
 * Each phase is a function over the sorted candidates with a contract saying what it finds;
 * the methods run the source's loops and are proved to compute those functions. The theorems
 * about the whole search are in the module SelectionTheorems.
 */
module Selection {
  import opened Machine
  import opened Notes
  import opened Fees

  datatype Needed = Needed(need: uint64, fee: uint64) | NeedOverflow

  /** What a send asks for: the amount, its explicit outputs and the fee policy. */
  datatype Request = Request(amount: uint64, outputs: int, policy: FeePolicy) {
    function Fee(spends: int, outs: int): nat {
      policy.Total(RequiredFeeSend(spends, outs))
    }

    function Need(spends: int, outs: int): nat {
      amount + Fee(spends, outs)
    }

    function NeededTotal(spends: int, outs: int): (r: Needed)
      ensures r == if Need(spends, outs) < TWO64
                   then Needed(Need(spends, outs), Fee(spends, outs)) else NeedOverflow
    {
      match policy.Apply(RequiredFeeSend(spends, outs))
      case Wrapped => NeedOverflow
      case Fits(fee) =>
        match AddUint64(amount, fee)
        case Wrapped => NeedOverflow
        case Fits(need) => Needed(need, fee)
    }
  }

  datatype Selection = Selected(notes: seq<Note>, fee: uint64) | Insufficient | Overflow

  datatype Pair = Pair(i: nat, j: nat) | NoPair | PairOverflow

  function PairSum(asc: seq<Note>, i: nat, j: nat): nat
    requires i < |asc| && j < |asc|
  {
    asc[i].value + asc[j].value
  }

  // ----- phases 1 and 2: one note -----

  /** The first note at or after `from` worth exactly `need`; `|asc|` if there is none. */
  function FirstEqual(asc: seq<Note>, need: uint64, from: nat): (r: nat)
    requires from <= |asc|
    ensures from <= r <= |asc|
    ensures r < |asc| ==> asc[r].value == need
    ensures forall k :: from <= k < r ==> asc[k].value != need
    decreases |asc| - from
  {
    if from == |asc| || asc[from].value == need then from else FirstEqual(asc, need, from + 1)
  }

  /** The first note at or after `from` worth at least `need`; `|asc|` if there is none. */
  function FirstAtLeast(asc: seq<Note>, need: uint64, from: nat): (r: nat)
    requires from <= |asc|
    ensures from <= r <= |asc|
    ensures r < |asc| ==> asc[r].value >= need
    ensures forall k :: from <= k < r ==> asc[k].value < need
    decreases |asc| - from
  {
    if from == |asc| || asc[from].value >= need then from else FirstAtLeast(asc, need, from + 1)
  }

  method FindEqual(asc: seq<Note>, need: uint64) returns (r: nat)
    ensures r == FirstEqual(asc, need, 0)
  {
    r := 0;
    while r < |asc|
      invariant r <= |asc|
      invariant FirstEqual(asc, need, 0) == FirstEqual(asc, need, r)
    {
      if asc[r].value == need {
        return;
      }
      r := r + 1;
    }
  }

  method FindAtLeast(asc: seq<Note>, need: uint64) returns (r: nat)
    ensures r == FirstAtLeast(asc, need, 0)
  {
    r := 0;
    while r < |asc|
      invariant r <= |asc|
      invariant FirstAtLeast(asc, need, 0) == FirstAtLeast(asc, need, r)
    {
      if asc[r].value >= need {
        return;
      }
      r := r + 1;
    }
  }

  // ----- phase 3: an exact pair, two pointers moving inwards -----

  /** The notes at `x` and `y`, both inside `[i..j]`, add up to exactly `need`. */
  ghost predicate ExactIn(asc: seq<Note>, need: uint64, i: int, j: int, x: int, y: int) {
    0 <= i <= x < y <= j < |asc| && PairSum(asc, x, y) == need
  }

  function ExactPair(asc: seq<Note>, need: uint64, i: int, j: int): (r: Pair)
    requires 0 <= i <= |asc| && -1 <= j < |asc|
    decreases j - i
  {
    if i >= j then
      NoPair
    else
      match AddUint64(asc[i].value, asc[j].value)
      case Wrapped => PairOverflow
      case Fits(sum) =>
        if sum == need then
          Pair(i, j)
        else if sum < need then
          ExactPair(asc, need, i + 1, j)
        else
          ExactPair(asc, need, i, j - 1)
  }

  /**
   * The two-pointer walk finds an exact pair if there is one, and then the outermost: every
   * other exact pair lies between its two notes.
   */
  lemma {:induction false} ExactPairIsComplete(asc: seq<Note>, need: uint64, i: int, j: int)
    requires 0 <= i <= |asc| && -1 <= j < |asc|
    requires Ordered(asc, false)
    ensures var r := ExactPair(asc, need, i, j);
            match r
            case NoPair => forall x, y :: !ExactIn(asc, need, i, j, x, y)
            case PairOverflow => exists x, y :: i <= x < y <= j && PairSum(asc, x, y) >= TWO64
            case Pair(a, b) =>
              && ExactIn(asc, need, i, j, a, b)
              && forall x, y :: ExactIn(asc, need, i, j, x, y) ==> a <= x && y <= b
    decreases j - i
  {
    hide Ordered;
    if i < j {
      var sum := PairSum(asc, i, j);
      if sum >= TWO64 {
      } else if sum < need {
        NoExactPairAtLeft(asc, need, i, j);
        ExactPairIsComplete(asc, need, i + 1, j);
      } else if sum > need {
        NoExactPairAtRight(asc, need, i, j);
        ExactPairIsComplete(asc, need, i, j - 1);
      }
    }
  }

  lemma Ascends(asc: seq<Note>, x: nat, y: nat)
    requires Ordered(asc, false)
    requires x <= y < |asc|
    ensures asc[x].value <= asc[y].value
  {
    assert x < y ==> !Before(asc[y], asc[x], false);
  }

  /** When the outer pair is too small, its left note is in no exact pair. */
  lemma NoExactPairAtLeft(asc: seq<Note>, need: uint64, i: int, j: int)
    requires Ordered(asc, false)
    requires 0 <= i < j < |asc| && PairSum(asc, i, j) < need
    ensures forall x, y :: ExactIn(asc, need, i, j, x, y) <==> ExactIn(asc, need, i + 1, j, x, y)
  {
    hide Ordered;
    forall x, y | ExactIn(asc, need, i, j, x, y)
      ensures i + 1 <= x
    {
      Ascends(asc, y, j);
    }
  }

  /** When the outer pair is too large, its right note is in no exact pair. */
  lemma NoExactPairAtRight(asc: seq<Note>, need: uint64, i: int, j: int)
    requires Ordered(asc, false)
    requires 0 <= i < j < |asc| && PairSum(asc, i, j) > need
    ensures forall x, y :: ExactIn(asc, need, i, j, x, y) <==> ExactIn(asc, need, i, j - 1, x, y)
  {
    hide Ordered;
    forall x, y | ExactIn(asc, need, i, j, x, y)
      ensures y <= j - 1
    {
      Ascends(asc, i, x);
    }
  }

  /**
   * The walk inside `[i..j]` stops at the overflowing pair `x < y`: the note before `x` falls
   * short with `y`, and no exact pair lies around both.
   */
  ghost predicate StopsAt(asc: seq<Note>, need: uint64, i: int, j: int, x: int, y: int) {
    && 0 <= i <= x < y <= j < |asc| && PairSum(asc, x, y) >= TWO64
    && (x == i || PairSum(asc, x - 1, y) < need)
    && forall a, b :: ExactIn(asc, need, i, j, a, b) ==> !(a <= x && y <= b)
  }

  /** Exactly when the walk ends in the overflow error. */
  lemma {:induction false} ExactPairOverflowsIff(asc: seq<Note>, need: uint64, i: int, j: int)
    requires 0 <= i <= |asc| && -1 <= j < |asc|
    requires Ordered(asc, false)
    ensures ExactPair(asc, need, i, j).PairOverflow? <==> exists x, y :: StopsAt(asc, need, i, j, x, y)
    decreases j - i
  {
    hide Ordered, StopsAt;
    if i < j {
      var sum := PairSum(asc, i, j);
      if sum >= TWO64 {
        assert StopsAt(asc, need, i, j, i, j) by {
          OuterPairStops(asc, need, i, j);
        }
      } else if sum < need {
        var next := i + 1;
        forall x, y
          ensures StopsAt(asc, need, i, j, x, y) <==> StopsAt(asc, need, next, j, x, y)
        {
          StopsAfterLeft(asc, need, i, j, x, y);
        }
        ExactPairOverflowsIff(asc, need, next, j);
      } else if sum > need {
        var next := j - 1;
        forall x, y
          ensures StopsAt(asc, need, i, j, x, y) <==> StopsAt(asc, need, i, next, x, y)
        {
          StopsAfterRight(asc, need, i, j, x, y);
        }
        ExactPairOverflowsIff(asc, need, i, next);
      } else {
        forall x, y
          ensures !StopsAt(asc, need, i, j, x, y)
        {
          ExactPairShields(asc, need, i, j, x, y);
        }
      }
    } else {
      forall x, y
        ensures !StopsAt(asc, need, i, j, x, y)
      {
        ExactPairShields(asc, need, i, j, x, y);
      }
    }
  }

  lemma OuterPairStops(asc: seq<Note>, need: uint64, i: int, j: int)
    requires 0 <= i < j < |asc| && PairSum(asc, i, j) >= TWO64
    ensures StopsAt(asc, need, i, j, i, j)
  {
  }

  lemma ExactPairShields(asc: seq<Note>, need: uint64, i: int, j: int, x: int, y: int)
    requires i >= j || ExactIn(asc, need, i, j, i, j)
    ensures !StopsAt(asc, need, i, j, x, y)
  {
  }

  lemma StopsAfterLeft(asc: seq<Note>, need: uint64, i: int, j: int, x: int, y: int)
    requires Ordered(asc, false)
    requires 0 <= i < j < |asc| && PairSum(asc, i, j) < need
    ensures StopsAt(asc, need, i, j, x, y) <==> StopsAt(asc, need, i + 1, j, x, y)
  {
    hide Ordered;
    var next := i + 1;
    NoExactPairAtLeft(asc, need, i, j);
    if i < y <= j {
      Ascends(asc, y, j);
      assert PairSum(asc, i, y) < need;
    }
    forall a, b | ExactIn(asc, need, next, j, a, b)
      ensures ExactIn(asc, need, i, j, a, b)
    {
    }
  }

  lemma StopsAfterRight(asc: seq<Note>, need: uint64, i: int, j: int, x: int, y: int)
    requires Ordered(asc, false)
    requires 0 <= i < j < |asc| && need < PairSum(asc, i, j) < TWO64
    ensures StopsAt(asc, need, i, j, x, y) <==> StopsAt(asc, need, i, j - 1, x, y)
  {
    hide Ordered;
    var next := j - 1;
    NoExactPairAtRight(asc, need, i, j);
    if i < x < j {
      Ascends(asc, i, x - 1);
      assert PairSum(asc, x - 1, j) > need;
    }
    forall a, b | ExactIn(asc, need, i, next, a, b)
      ensures ExactIn(asc, need, i, j, a, b)
    {
    }
  }

  method FindExactPair(asc: seq<Note>, need: uint64) returns (r: Pair)
    requires Ordered(asc, false)
    requires |asc| >= 2
    ensures r == ExactPair(asc, need, 0, |asc| - 1)
  {
    var i, j := 0, |asc| - 1;
    while i < j
      invariant 0 <= i <= j < |asc|
      invariant ExactPair(asc, need, 0, |asc| - 1) == ExactPair(asc, need, i, j)
      decreases j - i
    {
      var sum := AddUint64(asc[i].value, asc[j].value);
      if sum == Wrapped {
        return PairOverflow;
      }
      if sum.value == need {
        return Pair(i, j);
      } else if sum.value < need {
        i := i + 1;
      } else {
        j := j - 1;
      }
    }
    return NoPair;
  }

  // ----- phase 4: the cheapest pair that covers the need -----

  /** The comparison that keeps the best pair so far: by sum, then by position. */
  predicate Better(asc: seq<Note>, i: nat, j: nat, bestI: nat, bestJ: nat)
    requires i < |asc| && j < |asc| && bestI < |asc| && bestJ < |asc|
  {
    var sum, bestSum := PairSum(asc, i, j), PairSum(asc, bestI, bestJ);
    sum < bestSum || (sum == bestSum && (i < bestI || (i == bestI && j < bestJ)))
  }

  /** The notes at `x < y` reach `need`, the first of them being among the first `n`. */
  ghost predicate Covers(asc: seq<Note>, need: uint64, n: nat, x: nat, y: nat) {
    x < n && x < y < |asc| && asc[x].value < need && PairSum(asc, x, y) >= need
  }

  /** The first note after `i` that completes the need. */
  function Partner(asc: seq<Note>, need: uint64, i: nat): nat
    requires i < |asc| && asc[i].value < need
  {
    FirstAtLeast(asc, need - asc[i].value, i + 1)
  }

  /** The best pair whose first note is among the first `n`. */
  function BestPair(asc: seq<Note>, need: uint64, n: nat): (r: Pair)
    requires n <= |asc|
    ensures r.Pair? ==> r.i < n && r.i < r.j < |asc|
  {
    if n == 0 then
      NoPair
    else
      var best, i := BestPair(asc, need, n - 1), n - 1;
      if best.PairOverflow? || asc[i].value >= need then
        best
      else
        var j := Partner(asc, need, i);
        if j == |asc| then
          best
        else if AddUint64(asc[i].value, asc[j].value) == Wrapped then
          PairOverflow
        else if best.NoPair? || Better(asc, i, j, best.i, best.j) then
          Pair(i, j)
        else
          best
  }

  /** The kept pair was added up without overflow. */
  lemma {:induction false} BestPairFits(asc: seq<Note>, need: uint64, n: nat)
    requires n <= |asc|
    ensures var r := BestPair(asc, need, n); r.Pair? ==> PairSum(asc, r.i, r.j) < TWO64
  {
    if n > 0 {
      BestPairFits(asc, need, n - 1);
    }
  }

  ghost predicate IsBestPair(asc: seq<Note>, need: uint64, n: nat, r: Pair)
    requires n <= |asc|
  {
    match r
    case NoPair => forall x, y :: !Covers(asc, need, n, x, y)
    case PairOverflow => exists x, y :: Covers(asc, need, n, x, y) && PairSum(asc, x, y) >= TWO64
    case Pair(a, b) =>
      && Covers(asc, need, n, a, b)
      && PairSum(asc, a, b) < TWO64
      && forall x, y :: Covers(asc, need, n, x, y) ==> NoBetter(asc, a, b, x, y)
  }

  /** The pair `x < y` is worth more, or as much at a later place. */
  ghost predicate NoBetter(asc: seq<Note>, a: nat, b: nat, x: nat, y: nat)
    requires a < |asc| && b < |asc| && x < |asc| && y < |asc|
  {
    || PairSum(asc, a, b) < PairSum(asc, x, y)
    || (PairSum(asc, a, b) == PairSum(asc, x, y) && (a < x || (a == x && b <= y)))
  }

  /** All the pairs that cover with `x` as their first note overflow, and there are some. */
  ghost predicate OnlyOverflows(asc: seq<Note>, need: uint64, n: nat, x: nat) {
    && (exists y :: Covers(asc, need, n, x, y))
    && forall y :: Covers(asc, need, n, x, y) ==> PairSum(asc, x, y) >= TWO64
  }

  /** Exactly when the scan ends in the overflow error. */
  lemma {:induction false} BestPairOverflowsIff(asc: seq<Note>, need: uint64, n: nat)
    requires n <= |asc|
    requires Ordered(asc, false)
    ensures BestPair(asc, need, n).PairOverflow? <==> exists x: nat :: OnlyOverflows(asc, need, n, x)
  {
    hide Ordered, OnlyOverflows;
    if n > 0 {
      var i := n - 1;
      BestPairOverflowsIff(asc, need, i);
      NewestOverflows(asc, need, i);
      forall x: nat
        ensures OnlyOverflows(asc, need, n, x) <==>
                  OnlyOverflows(asc, need, i, x) || (x == i && OnlyOverflows(asc, need, n, i))
      {
        OverflowKept(asc, need, n, x);
      }
    } else {
      forall x: nat
        ensures !OnlyOverflows(asc, need, n, x)
      {
        NoneYet(asc, need, x);
      }
    }
  }

  lemma OverflowKept(asc: seq<Note>, need: uint64, n: nat, x: nat)
    requires n > 0
    ensures OnlyOverflows(asc, need, n, x) <==>
              OnlyOverflows(asc, need, n - 1, x) || (x == n - 1 && OnlyOverflows(asc, need, n, n - 1))
  {
    var i := n - 1;
    if x < i {
      forall y: nat
        ensures Covers(asc, need, n, x, y) <==> Covers(asc, need, i, x, y)
      {
      }
    }
  }

  lemma NoneYet(asc: seq<Note>, need: uint64, x: nat)
    ensures !OnlyOverflows(asc, need, 0, x)
  {
  }

  /** For the newest first note the partner decides. */
  lemma NewestOverflows(asc: seq<Note>, need: uint64, i: nat)
    requires i < |asc|
    requires Ordered(asc, false)
    ensures OnlyOverflows(asc, need, i + 1, i) <==>
              && asc[i].value < need && Partner(asc, need, i) < |asc|
              && PairSum(asc, i, Partner(asc, need, i)) >= TWO64
  {
    if asc[i].value < need {
      var p := Partner(asc, need, i);
      if p < |asc| {
        assert Covers(asc, need, i + 1, i, p);
        forall y | Covers(asc, need, i + 1, i, y)
          ensures PairSum(asc, i, y) >= PairSum(asc, i, p)
        {
          PartnerIsBest(asc, need, i, y);
        }
      }
    }
  }

  /** The partner is the best choice for its own first note. */
  lemma PartnerIsBest(asc: seq<Note>, need: uint64, i: nat, y: nat)
    requires Ordered(asc, false)
    requires i < |asc| && asc[i].value < need
    requires Covers(asc, need, i + 1, i, y)
    ensures Partner(asc, need, i) <= y
    ensures NoBetter(asc, i, Partner(asc, need, i), i, y)
  {
    Ascends(asc, Partner(asc, need, i), y);
  }

  lemma {:induction false} BestPairIsBest(asc: seq<Note>, need: uint64, n: nat)
    requires n <= |asc|
    requires Ordered(asc, false)
    ensures IsBestPair(asc, need, n, BestPair(asc, need, n))
  {
    if n > 0 {
      BestPairIsBest(asc, need, n - 1);
      BestPairStep(asc, need, n);
    }
  }

  /** One round of the scan: comparing with the newest partner keeps the best pair best. */
  lemma BestPairStep(asc: seq<Note>, need: uint64, n: nat)
    requires 0 < n <= |asc|
    requires Ordered(asc, false)
    requires IsBestPair(asc, need, n - 1, BestPair(asc, need, n - 1))
    ensures IsBestPair(asc, need, n, BestPair(asc, need, n))
  {
    hide Ordered;
    var best, i, r := BestPair(asc, need, n - 1), n - 1, BestPair(asc, need, n);
    if best.PairOverflow? {
      var x, y :| Covers(asc, need, n - 1, x, y) && PairSum(asc, x, y) >= TWO64;
      assert Covers(asc, need, n, x, y);
    } else if r.PairOverflow? {
      assert Covers(asc, need, n, i, Partner(asc, need, i));
    } else {
      forall x, y | Covers(asc, need, n, x, y)
        ensures r.Pair? && NoBetter(asc, r.i, r.j, x, y)
      {
        if x == i {
          PartnerIsBest(asc, need, i, y);
        } else {
          assert Covers(asc, need, n - 1, x, y);
        }
      }
    }
  }

  lemma FirstAtLeastIsUnique(asc: seq<Note>, need: uint64, from: nat, r: nat)
    requires from <= r <= |asc|
    requires forall k :: from <= k < r ==> asc[k].value < need
    requires r < |asc| ==> asc[r].value >= need
    ensures r == FirstAtLeast(asc, need, from)
  {
  }

  /**
   * The library's binary search over the notes from `from` on: the first index whose note
   * reaches `need`, or the end. It relies on the order, unlike the function it computes.
   */
  method SearchAscending(asc: seq<Note>, need: uint64, from: nat) returns (r: nat)
    requires Ordered(asc, false)
    requires from <= |asc|
    ensures r == FirstAtLeast(asc, need, from)
  {
    hide Ordered;
    var i, j := 0, |asc| - from;
    while i < j
      invariant 0 <= i <= j <= |asc| - from
      invariant forall k :: from <= k < from + i ==> asc[k].value < need
      invariant forall k :: from + j <= k < |asc| ==> asc[k].value >= need
    {
      var h := (i + j) / 2;
      if asc[from + h].value < need {
        forall k | from <= k <= from + h
          ensures asc[k].value < need
        {
          Ascends(asc, k, from + h);
        }
        i := h + 1;
      } else {
        forall k | from + h <= k < |asc|
          ensures asc[k].value >= need
        {
          Ascends(asc, from + h, k);
        }
        j := h;
      }
    }
    r := from + i;
    FirstAtLeastIsUnique(asc, need, from, r);
  }

  method FindBestPair(asc: seq<Note>, need: uint64) returns (r: Pair)
    requires Ordered(asc, false)
    requires |asc| >= 2
    ensures r == BestPair(asc, need, |asc| - 1)
  {
    hide FirstAtLeast, Ordered;
    r := NoPair;
    var i := 0;
    while i < |asc| - 1
      invariant i <= |asc| - 1
      invariant r == BestPair(asc, need, i)
      invariant !r.PairOverflow?
    {
      var a := asc[i].value;
      if a >= need {
        NothingAfterBreak(asc, need, i, |asc| - 1);
        break;
      }
      var j := SearchAscending(asc, need - a, i + 1);
      if j < |asc| {
        var sum := AddUint64(a, asc[j].value);
        if sum == Wrapped {
          OverflowStays(asc, need, i + 1, |asc| - 1);
          return PairOverflow;
        }
        if r.NoPair? || Better(asc, i, j, r.i, r.j) {
          r := Pair(i, j);
        }
      }
      i := i + 1;
    }
  }

  lemma {:induction false} NothingAfterBreak(asc: seq<Note>, need: uint64, i: nat, n: nat)
    requires Ordered(asc, false)
    requires i <= n <= |asc|
    requires i < |asc| && asc[i].value >= need
    ensures BestPair(asc, need, n) == BestPair(asc, need, i)
    decreases n
  {
    if i < n {
      NothingAfterBreak(asc, need, i, n - 1);
      assert i < n - 1 ==> !Before(asc[n - 1], asc[i], false);
      assert asc[n - 1].value >= need;
    }
  }

  lemma {:induction false} OverflowStays(asc: seq<Note>, need: uint64, i: nat, n: nat)
    requires i <= n <= |asc|
    requires BestPair(asc, need, i).PairOverflow?
    ensures BestPair(asc, need, n).PairOverflow?
    decreases n
  {
    if i < n {
      OverflowStays(asc, need, i, n - 1);
    }
  }

  // ----- phase 5: largest first -----

  /** Adds the notes from `k` on, largest first, until the ones taken pay for themselves. */
  function Greedy(desc: seq<Note>, q: Request, k: nat): (r: Selection)
    requires k <= |desc|
    decreases |desc| - k
  {
    if k == |desc| then
      Insufficient
    else
      var total, n := Sum(desc[..k + 1]), k + 1;
      if total >= TWO64 then
        Overflow
      else
        match q.NeededTotal(n, q.outputs)
        case NeedOverflow => Overflow
        case Needed(exact, feeExact) =>
          if total == exact then
            Selected(desc[..n], feeExact)
          else
            match q.NeededTotal(n, q.outputs + 1)
            case NeedOverflow => Overflow
            case Needed(need, fee) =>
              if total >= need then Selected(desc[..n], fee) else Greedy(desc, q, n)
  }

  method FindGreedy(desc: seq<Note>, q: Request) returns (r: Selection)
    ensures r == Greedy(desc, q, 0)
  {
    hide Request.Need, Request.Fee, Request.NeededTotal, Sum;
    var selected: seq<Note>, total: uint64 := [], 0;
    assert total == Sum(desc[..0]) by {
      SumOfNothing();
    }
    for k := 0 to |desc|
      invariant selected == desc[..k]
      invariant total == Sum(desc[..k])
      invariant Greedy(desc, q, 0) == Greedy(desc, q, k)
    {
      SumTake(desc, k);
      selected := selected + [desc[k]];
      assert selected == desc[..k + 1];
      var sum := AddUint64(total, desc[k].value);
      if sum == Wrapped {
        return Overflow;
      }
      total := sum.value;
      var exact := q.NeededTotal(|selected|, q.outputs);
      if exact == NeedOverflow {
        return Overflow;
      }
      if total == exact.need {
        return Selected(selected, exact.fee);
      }
      var withChange := q.NeededTotal(|selected|, q.outputs + 1);
      if withChange == NeedOverflow {
        return Overflow;
      }
      if total >= withChange.need {
        return Selected(selected, withChange.fee);
      }
    }
    return Insufficient;
  }

  // ----- the five phases in order -----

  function Select(notes: seq<Note>, q: Request): Selection {
    if notes == [] then Insufficient else SelectSingle(SortNotes(notes, false), SortNotes(notes, true), q)
  }

  function SelectSingle(asc: seq<Note>, desc: seq<Note>, q: Request): Selection {
    match q.NeededTotal(1, q.outputs)
    case NeedOverflow => Overflow
    case Needed(exact, feeExact) =>
      var e := FirstEqual(asc, exact, 0);
      if e < |asc| then
        Selected([asc[e]], feeExact)
      else
        match q.NeededTotal(1, q.outputs + 1)
        case NeedOverflow => Overflow
        case Needed(need, fee) =>
          var f := FirstAtLeast(asc, need, 0);
          if f < |asc| then Selected([asc[f]], fee) else SelectPair(asc, desc, q)
  }

  function SelectPair(asc: seq<Note>, desc: seq<Note>, q: Request): Selection {
    match q.NeededTotal(2, q.outputs)
    case NeedOverflow => Overflow
    case Needed(exact, feeExact) =>
      match if |asc| >= 2 then ExactPair(asc, exact, 0, |asc| - 1) else NoPair
      case PairOverflow => Overflow
      case Pair(i, j) => ExactPairInside(asc, exact, 0, |asc| - 1); Selected([asc[i], asc[j]], feeExact)
      case NoPair =>
        match q.NeededTotal(2, q.outputs + 1)
        case NeedOverflow => Overflow
        case Needed(need, fee) =>
          match if |asc| >= 2 then BestPair(asc, need, |asc| - 1) else NoPair
          case PairOverflow => Overflow
          case Pair(i, j) => Selected([asc[i], asc[j]], fee)
          case NoPair => Greedy(desc, q, 0)
  }

  lemma {:induction false} ExactPairInside(asc: seq<Note>, need: uint64, i: int, j: int)
    requires 0 <= i <= |asc| && -1 <= j < |asc|
    ensures var r := ExactPair(asc, need, i, j); r.Pair? ==> i <= r.i < r.j <= j
    decreases j - i
  {
    if i < j {
      ExactPairInside(asc, need, i + 1, j);
      ExactPairInside(asc, need, i, j - 1);
    }
  }

  method SelectNotesWithFeePolicy(notes: seq<Note>, amount: uint64, outputCount: int, feePolicy: FeePolicy)
    returns (r: Selection)
    ensures r == Select(notes, Request(amount, outputCount, feePolicy))
  {
    var q := Request(amount, outputCount, feePolicy);
    if notes == [] {
      return Insufficient;
    }
    var notesAsc := SortNotes(notes, false);

    var exact1 := q.NeededTotal(1, outputCount);
    if exact1 == NeedOverflow {
      return Overflow;
    }
    var k := FindEqual(notesAsc, exact1.need);
    if k < |notesAsc| {
      return Selected([notesAsc[k]], exact1.fee);
    }

    var fit1 := q.NeededTotal(1, outputCount + 1);
    if fit1 == NeedOverflow {
      return Overflow;
    }
    k := FindAtLeast(notesAsc, fit1.need);
    if k < |notesAsc| {
      return Selected([notesAsc[k]], fit1.fee);
    }
    r := SelectTwoOrMore(notes, notesAsc, q);
  }

  method SelectTwoOrMore(notes: seq<Note>, notesAsc: seq<Note>, q: Request) returns (r: Selection)
    requires notesAsc == SortNotes(notes, false)
    ensures r == SelectPair(notesAsc, SortNotes(notes, true), q)
  {
    hide Request.Need, Request.Fee, ExactPair, BestPair, Greedy, SortNotes, Before;
    var exact2 := q.NeededTotal(2, q.outputs);
    if exact2 == NeedOverflow {
      return Overflow;
    } else if |notesAsc| >= 2 {
      var p := FindExactPair(notesAsc, exact2.need);
      if p.PairOverflow? {
        return Overflow;
      } else if p.Pair? {
        ExactPairInside(notesAsc, exact2.need, 0, |notesAsc| - 1);
        return Selected([notesAsc[p.i], notesAsc[p.j]], exact2.fee);
      }
    }

    var fit2 := q.NeededTotal(2, q.outputs + 1);
    if fit2 == NeedOverflow {
      return Overflow;
    } else if |notesAsc| >= 2 {
      var p := FindBestPair(notesAsc, fit2.need);
      if p.PairOverflow? {
        return Overflow;
      } else if p.Pair? {
        return Selected([notesAsc[p.i], notesAsc[p.j]], fit2.fee);
      }
    }

    var notesDesc := SortNotes(notes, true);
    r := FindGreedy(notesDesc, q);
  }
}
