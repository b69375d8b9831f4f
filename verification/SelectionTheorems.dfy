/**
 * What the five-phase search promises, against every sub-multiset of the candidates:
 * soundness, completeness, input-count minimality, pair optimality and determinism.
 */
module SelectionTheorems {
  import opened Machine
  import opened Notes
  import opened Fees
  import opened Selection

  /** A non-empty choice of candidates, each used at most as often as it occurs. */
  ghost predicate FromWallet(s: seq<Note>, notes: seq<Note>) {
    s != [] && multiset(s) <= multiset(notes)
  }

  /** The choice pays the amount and its own fee, with a change output counted. */
  ghost predicate Funds(q: Request, s: seq<Note>) {
    Sum(s) >= q.Need(|s|, q.outputs + 1)
  }

  /** The choice pays the amount and its own fee to the zatoshi, so there is no change. */
  ghost predicate FundsExactly(q: Request, s: seq<Note>) {
    Sum(s) == q.Need(|s|, q.outputs)
  }

  lemma SubsetSize(s: seq<Note>, notes: seq<Note>)
    requires multiset(s) <= multiset(notes)
    ensures |s| <= |notes|
  {
    assert multiset(notes) == multiset(s) + (multiset(notes) - multiset(s));
    assert |multiset(notes)| == |multiset(s)| + |multiset(notes) - multiset(s)|;
  }

  // ----- the greedy phase, for every number of notes -----

  /** Taking the `n` most valuable notes neither pays exactly nor pays with change. */
  ghost predicate TopFails(desc: seq<Note>, q: Request, n: nat)
    requires n <= |desc|
  {
    !FundsExactly(q, desc[..n]) && !Funds(q, desc[..n])
  }

  /** The round for the `n` most valuable notes ends in the overflow error. */
  ghost predicate TopOverflows(desc: seq<Note>, q: Request, n: nat)
    requires n <= |desc|
  {
    || Sum(desc[..n]) >= TWO64
    || q.Need(n, q.outputs) >= TWO64
    || (q.Need(n, q.outputs + 1) >= TWO64 && !FundsExactly(q, desc[..n]))
  }

  /** The round for the `n` most valuable notes goes on to the next one. */
  ghost predicate GoesOn(desc: seq<Note>, q: Request, n: nat)
    requires n <= |desc|
  {
    TopFails(desc, q, n) && !TopOverflows(desc, q, n)
  }

  lemma {:induction false} GreedyStopsAtFirstSuccess(desc: seq<Note>, q: Request, k: nat)
    requires k <= |desc|
    ensures match Greedy(desc, q, k)
            case Insufficient => forall n :: k < n <= |desc| ==> GoesOn(desc, q, n)
            case Overflow => exists n :: k < n <= |desc| && TopOverflows(desc, q, n)
                                         && forall m :: k < m < n ==> GoesOn(desc, q, m)
            case Selected(s, fee) =>
              && k < |s| <= |desc| && s == desc[..|s|] && Sum(s) < TWO64
              && (|| (FundsExactly(q, s) && fee == q.Fee(|s|, q.outputs))
                  || (Funds(q, s) && fee == q.Fee(|s|, q.outputs + 1)))
              && !TopOverflows(desc, q, |s|)
              && forall n :: k < n < |s| ==> GoesOn(desc, q, n)
    decreases |desc| - k
  {
    hide Request.Need, Request.Fee, Sum, Greedy, GoesOn, TopOverflows, Funds, FundsExactly;
    if k == |desc| {
      assert Greedy(desc, q, k) == Insufficient by {
        GreedyEnds(desc, q);
      }
    } else {
      GreedyStep(desc, q, k);
      if Greedy(desc, q, k) == Greedy(desc, q, k + 1) && GoesOn(desc, q, k + 1) {
        GreedyStopsAtFirstSuccess(desc, q, k + 1);
      }
    }
  }

  lemma GreedyEnds(desc: seq<Note>, q: Request)
    ensures Greedy(desc, q, |desc|) == Insufficient
  {
  }

  /** One round of the greedy loop. */
  lemma GreedyStep(desc: seq<Note>, q: Request, k: nat)
    requires k < |desc|
    ensures var r, n, s := Greedy(desc, q, k), k + 1, desc[..k + 1];
            || (r == Overflow && TopOverflows(desc, q, n))
            || (r == Greedy(desc, q, n) && GoesOn(desc, q, n))
            || (r.Selected? && r.notes == s && |s| == n && Sum(s) < TWO64 && !TopOverflows(desc, q, n)
                && (|| (FundsExactly(q, s) && r.fee == q.Fee(n, q.outputs))
                    || (Funds(q, s) && r.fee == q.Fee(n, q.outputs + 1))))
  {
    hide Request.Need, Request.Fee, Sum;
    assert |desc[..k + 1]| == k + 1;
  }

  /** If the best choice of `|c|` notes fails, so does `c`. */
  lemma TopFailsForAll(notes: seq<Note>, q: Request, c: seq<Note>)
    requires FromWallet(c, notes)
    requires |c| <= |notes| ==> TopFails(SortNotes(notes, true), q, |c|)
    ensures !Funds(q, c)
  {
    LargestAreFirst(SortNotes(notes, true), c);
  }

  // ----- soundness -----

  ghost predicate Sound(notes: seq<Note>, q: Request, r: Selection) {
    r.Selected? ==>
      && FromWallet(r.notes, notes)
      && Sum(r.notes) < TWO64
      && (|| (FundsExactly(q, r.notes) && r.fee == q.Fee(|r.notes|, q.outputs))
          || (Funds(q, r.notes) && r.fee == q.Fee(|r.notes|, q.outputs + 1)))
  }

  lemma OneNote(asc: seq<Note>, k: nat)
    requires k < |asc|
    ensures FromWallet([asc[k]], asc)
    ensures Sum([asc[k]]) == asc[k].value
  {
    assert [asc[k]][..0] == [];
    assert asc == asc[..k] + [asc[k]] + asc[k + 1..];
  }

  lemma TwoNotes(asc: seq<Note>, i: nat, j: nat)
    requires i < j < |asc|
    ensures FromWallet([asc[i], asc[j]], asc)
    ensures Sum([asc[i], asc[j]]) == PairSum(asc, i, j)
  {
    assert [asc[i], asc[j]][..1] == [asc[i]];
    OneNote(asc, i);
    assert asc == asc[..i] + [asc[i]] + asc[i + 1..j] + [asc[j]] + asc[j + 1..];
  }

  lemma GreedyIsSound(notes: seq<Note>, q: Request)
    ensures Sound(notes, q, Greedy(SortNotes(notes, true), q, 0))
  {
    var desc := SortNotes(notes, true);
    GreedyStopsAtFirstSuccess(desc, q, 0);
    var r := Greedy(desc, q, 0);
    if r.Selected? {
      SumSplit(desc, |r.notes|);
    }
  }

  lemma ExactPairIsSound(asc: seq<Note>, q: Request)
    requires Ordered(asc, false) && |asc| >= 2 && q.Need(2, q.outputs) < TWO64
    requires ExactPair(asc, q.Need(2, q.outputs), 0, |asc| - 1).Pair?
    ensures var p := ExactPair(asc, q.Need(2, q.outputs), 0, |asc| - 1);
            && 0 <= p.i < |asc| && 0 <= p.j < |asc|
            && Sound(asc, q, Selected([asc[p.i], asc[p.j]], q.Fee(2, q.outputs)))
  {
    hide Request.Need, Request.Fee, ExactPair, Sum, Ordered;
    var p := ExactPair(asc, q.Need(2, q.outputs), 0, |asc| - 1);
    ExactPairIsComplete(asc, q.Need(2, q.outputs), 0, |asc| - 1);
    TwoNotes(asc, p.i, p.j);
  }

  lemma BestPairIsSound(asc: seq<Note>, q: Request)
    requires Ordered(asc, false) && |asc| >= 2 && q.Need(2, q.outputs + 1) < TWO64
    requires BestPair(asc, q.Need(2, q.outputs + 1), |asc| - 1).Pair?
    ensures var b := BestPair(asc, q.Need(2, q.outputs + 1), |asc| - 1);
            Sound(asc, q, Selected([asc[b.i], asc[b.j]], q.Fee(2, q.outputs + 1)))
  {
    hide Request.Need, Request.Fee, BestPair, Sum, Ordered, Better;
    var b := BestPair(asc, q.Need(2, q.outputs + 1), |asc| - 1);
    BestPairIsBest(asc, q.Need(2, q.outputs + 1), |asc| - 1);
    BestPairFits(asc, q.Need(2, q.outputs + 1), |asc| - 1);
    TwoNotes(asc, b.i, b.j);
  }

  lemma SoundForPermutation(a: seq<Note>, b: seq<Note>, q: Request, r: Selection)
    requires multiset(a) == multiset(b) && Sound(a, q, r)
    ensures Sound(b, q, r)
  {
  }

  /** The four ways the pair phases can end. */
  lemma PairStageEnds(asc: seq<Note>, desc: seq<Note>, q: Request)
    ensures var r, exact, need := SelectPair(asc, desc, q), q.Need(2, q.outputs), q.Need(2, q.outputs + 1);
            || r.Overflow?
            || (|asc| >= 2 && exact < TWO64 && ExactPair(asc, exact, 0, |asc| - 1).Pair?
                && var p := ExactPair(asc, exact, 0, |asc| - 1);
                   0 <= p.i < |asc| && 0 <= p.j < |asc| && r == Selected([asc[p.i], asc[p.j]], q.Fee(2, q.outputs)))
            || (|asc| >= 2 && need < TWO64 && BestPair(asc, need, |asc| - 1).Pair?
                && var b := BestPair(asc, need, |asc| - 1);
                   r == Selected([asc[b.i], asc[b.j]], q.Fee(2, q.outputs + 1)))
            || r == Greedy(desc, q, 0)
  {
    hide Request.Need, Request.Fee, Greedy, ExactPair, BestPair;
    if |asc| >= 2 && q.Need(2, q.outputs) < TWO64 {
      ExactPairInside(asc, q.Need(2, q.outputs), 0, |asc| - 1);
    }
  }

  lemma PairIsSound(notes: seq<Note>, q: Request)
    ensures Sound(notes, q, SelectPair(SortNotes(notes, false), SortNotes(notes, true), q))
  {
    hide Request.Need, Request.Fee, Greedy, ExactPair, BestPair, SelectPair, Sum, SortNotes, Ordered, Sound;
    var asc, desc := SortNotes(notes, false), SortNotes(notes, true);
    var exact, need := q.Need(2, q.outputs), q.Need(2, q.outputs + 1);
    var r := SelectPair(asc, desc, q);
    PairStageEnds(asc, desc, q);
    GreedyIsSound(notes, q);
    if |asc| >= 2 && exact < TWO64 && ExactPair(asc, exact, 0, |asc| - 1).Pair? {
      ExactPairIsSound(asc, q);
    }
    if |asc| >= 2 && need < TWO64 && BestPair(asc, need, |asc| - 1).Pair? {
      BestPairIsSound(asc, q);
    }
    if !r.Selected? {
      ErrorsAreSound(notes, q, r);
    } else if r != Greedy(desc, q, 0) {
      SoundForPermutation(asc, notes, q, r);
    }
  }

  lemma ErrorsAreSound(notes: seq<Note>, q: Request, r: Selection)
    requires !r.Selected?
    ensures Sound(notes, q, r)
  {
  }

  /** A selection spends candidates only, and they pay for the amount and the returned fee. */
  lemma SelectionIsSound(notes: seq<Note>, q: Request)
    ensures Sound(notes, q, Select(notes, q))
  {
    hide Request.Need, Request.Fee, SelectPair, SortNotes, Ordered, Before, InsertNote;
    var asc := SortNotes(notes, false);
    var exact, need := q.NeededTotal(1, q.outputs), q.NeededTotal(1, q.outputs + 1);
    PairIsSound(notes, q);
    if notes != [] && exact.Needed? {
      var e := FirstEqual(asc, exact.need, 0);
      if e < |asc| {
        OneNote(asc, e);
      } else if need.Needed? {
        var f := FirstAtLeast(asc, need.need, 0);
        if f < |asc| {
          OneNote(asc, f);
        }
      }
    }
  }

  // ----- which phase answers -----

  /** No single candidate is worth exactly the no-change need or at least the with-change need. */
  ghost predicate SinglesFail(notes: seq<Note>, q: Request) {
    forall x :: x in notes ==> x.value != q.Need(1, q.outputs) && x.value < q.Need(1, q.outputs + 1)
  }

  /** Either a one-note phase answers, or all single notes fail and the pair phases decide. */
  lemma SingleStage(notes: seq<Note>, q: Request)
    requires notes != []
    ensures var r := Select(notes, q);
            || (r.Overflow? && (q.Need(1, q.outputs) >= TWO64 || q.Need(1, q.outputs + 1) >= TWO64))
            || (r.Selected? && |r.notes| == 1)
            || (SinglesFail(notes, q) && r == SelectPair(SortNotes(notes, false), SortNotes(notes, true), q))
  {
    hide Request.Need, Request.Fee, Sum, Ordered, Before, TextBefore, InsertNote, SortNotes;
    var asc := SortNotes(notes, false);
    var exact, need := q.NeededTotal(1, q.outputs), q.NeededTotal(1, q.outputs + 1);
    if exact.Needed? && need.Needed?
       && FirstEqual(asc, exact.need, 0) == |asc| && FirstAtLeast(asc, need.need, 0) == |asc| {
      forall x | x in notes
        ensures x.value != q.Need(1, q.outputs) && x.value < q.Need(1, q.outputs + 1)
      {
        assert x in multiset(asc);
      }
    }
  }

  /**
   * The one-note phases: a note worth exactly the no-change need is taken without change;
   * otherwise the cheapest note that reaches the with-change need.
   */
  lemma SinglePhasesAreOptimal(notes: seq<Note>, q: Request)
    requires q.Need(1, q.outputs) < TWO64 && q.Need(1, q.outputs + 1) < TWO64
    ensures var r, exact, need := Select(notes, q), q.Need(1, q.outputs), q.Need(1, q.outputs + 1);
            if exists x :: x in notes && x.value == exact then
              && r.Selected? && |r.notes| == 1 && r.fee == q.Fee(1, q.outputs)
              && r.notes[0] in notes && r.notes[0].value == exact
              && forall y :: y in notes && y.value == exact ==> !Before(y, r.notes[0], false)
            else if exists x :: x in notes && x.value >= need then
              && r.Selected? && |r.notes| == 1 && r.fee == q.Fee(1, q.outputs + 1)
              && r.notes[0] in notes && r.notes[0].value >= need
              && forall y :: y in notes && y.value >= need ==>
                   r.notes[0].value <= y.value && !Before(y, r.notes[0], false)
            else
              SinglesFail(notes, q)
  {
    hide Request.Need, Request.Fee, SelectPair, Sum, SortNotes, Ordered, Before, InsertNote, FirstEqual, FirstAtLeast,
         FeePolicy.Total, RequiredFeeSend;
    var asc := SortNotes(notes, false);
    SameMembers(notes, asc);
    if FirstEqual(asc, q.Need(1, q.outputs), 0) < |asc| {
      FirstEqualIsEarliest(asc, q.Need(1, q.outputs));
    }
    if FirstAtLeast(asc, q.Need(1, q.outputs + 1), 0) < |asc| {
      FirstAtLeastIsCheapest(asc, q.Need(1, q.outputs + 1));
    }
  }

  lemma FirstEqualIsEarliest(asc: seq<Note>, need: uint64)
    requires Ordered(asc, false)
    requires FirstEqual(asc, need, 0) < |asc|
    ensures forall y :: y in asc && y.value == need ==> !Before(y, asc[FirstEqual(asc, need, 0)], false)
  {
    var f := FirstEqual(asc, need, 0);
    forall y | y in asc && y.value == need
      ensures !Before(y, asc[f], false)
    {
      var k :| 0 <= k < |asc| && asc[k] == y;
      BeforeTotal(y, y, false);
    }
  }

  lemma SameMembers(a: seq<Note>, b: seq<Note>)
    requires multiset(a) == multiset(b)
    ensures forall x :: x in a <==> x in b
  {
    assert forall x :: x in a ==> x in multiset(b);
    assert forall x :: x in b ==> x in multiset(a);
  }

  lemma FirstAtLeastIsCheapest(asc: seq<Note>, need: uint64)
    requires Ordered(asc, false)
    requires FirstAtLeast(asc, need, 0) < |asc|
    ensures forall y :: y in asc && y.value >= need ==>
              && asc[FirstAtLeast(asc, need, 0)].value <= y.value
              && !Before(y, asc[FirstAtLeast(asc, need, 0)], false)
  {
    var f := FirstAtLeast(asc, need, 0);
    forall y | y in asc && y.value >= need
      ensures asc[f].value <= y.value && !Before(y, asc[f], false)
    {
      var k :| 0 <= k < |asc| && asc[k] == y;
      BeforeTotal(y, y, false);
      assert f < k ==> !Before(asc[k], asc[f], false);
    }
  }

  /**
   * While one note is not enough no single note reaches the pair need either, so the early exit
   * from the scan for the best pair is never taken.
   */
  lemma PairBreakIsUnreachable(notes: seq<Note>, q: Request)
    requires SinglesFail(notes, q)
    ensures forall x :: x in notes ==> x.value < q.Need(2, q.outputs + 1)
  {
    OneAndTwoSpendsCostTheSame(q.outputs + 1);
  }

  ghost predicate PairOf(notes: seq<Note>, c: seq<Note>) {
    |c| == 2 && multiset(c) <= multiset(notes)
  }

  lemma PairHasIndices(asc: seq<Note>, c: seq<Note>) returns (x: nat, y: nat)
    requires PairOf(asc, c)
    ensures x < y < |asc| && PairSum(asc, x, y) == Sum(c)
  {
    assert c == [c[0], c[1]];
    TwoNotes(c, 0, 1);
    x, y := TwoPositions(asc, c[0], c[1]);
  }

  /** The answer of the pair phases when no arithmetic overflows. */
  ghost predicate PairAnswer(notes: seq<Note>, q: Request, r: Selection) {
    if exists c :: PairOf(notes, c) && FundsExactly(q, c) then
      r.Selected? && |r.notes| == 2 && FundsExactly(q, r.notes)
    else if exists c :: PairOf(notes, c) && Funds(q, c) then
      && r.Selected? && |r.notes| == 2 && Funds(q, r.notes)
      && forall c :: PairOf(notes, c) && Funds(q, c) ==> Sum(r.notes) <= Sum(c)
    else
      r == Greedy(SortNotes(notes, true), q, 0)
  }

  /**
   * After the one-note phases fail and without overflow, an exact pair is returned if there is
   * one; otherwise a pair of least total among all that reach the with-change need; and the
   * greedy phase runs only if no pair reaches it.
   */
  lemma PairPhasesAreOptimal(notes: seq<Note>, q: Request)
    requires SinglesFail(notes, q)
    requires notes != []
    requires !Select(notes, q).Overflow?
    ensures PairAnswer(notes, q, Select(notes, q))
  {
    var asc, r := SortNotes(notes, false), Select(notes, q);
    SingleStage(notes, q);
    SinglesAreNotSelected(notes, q);
    assert r == SelectPair(asc, SortNotes(notes, true), q);
    if |asc| < 2 {
      forall c | PairOf(notes, c)
        ensures false
      {
        SubsetSize(c, notes);
      }
    } else {
      ExactPhase(notes, asc, q, r);
      if ExactPair(asc, q.Need(2, q.outputs), 0, |asc| - 1).NoPair? {
        BestPhase(notes, asc, q, r);
      }
    }
  }

  /** The outermost exact pair of the ascending order, both of its notes and in that order. */
  ghost predicate OutermostExactPair(asc: seq<Note>, need: uint64, last: int, s: seq<Note>) {
    exists a, b ::
      && ExactIn(asc, need, 0, last, a, b) && s == [asc[a], asc[b]]
      && forall x, y :: ExactIn(asc, need, 0, last, x, y) ==> a <= x && y <= b
  }

  /** The covering pair of least total, and of those the first in the ascending order. */
  ghost predicate FirstCheapestPair(asc: seq<Note>, need: uint64, last: nat, s: seq<Note>) {
    exists a: nat, b: nat ::
      && Covers(asc, need, last, a, b) && s == [asc[a], asc[b]]
      && forall x, y :: Covers(asc, need, last, x, y) ==> NoBetter(asc, a, b, x, y)
  }

  /** Which pair, with which fee, after no single note paid. */
  lemma PairIsDetermined(notes: seq<Note>, q: Request)
    requires SinglesFail(notes, q)
    requires |notes| >= 2
    requires !Select(notes, q).Overflow?
    ensures q.Need(2, q.outputs) < TWO64
    ensures var asc, last, r := SortNotes(notes, false), |notes| - 1, Select(notes, q);
            var exact, need := q.Need(2, q.outputs), q.Need(2, q.outputs + 1);
            if exists x, y :: ExactIn(asc, exact, 0, last, x, y) then
              && r.Selected? && r.fee == q.Fee(2, q.outputs)
              && OutermostExactPair(asc, exact, last, r.notes)
            else
              && need < TWO64
              && if exists x, y :: Covers(asc, need, last, x, y) then
                   && r.Selected? && r.fee == q.Fee(2, q.outputs + 1)
                   && FirstCheapestPair(asc, need, last, r.notes)
                 else r == Greedy(SortNotes(notes, true), q, 0)
  {
    hide Request.Need, Request.Fee, Greedy, SelectPair, Sum, SortNotes, Ordered, Select, SinglesFail,
         OutermostExactPair, FirstCheapestPair, ExactIn, Covers;
    SinglesAreNotSelected(notes, q);
    PairByCases(SortNotes(notes, false), SortNotes(notes, true), q, |notes| - 1);
  }

  lemma PairByCases(asc: seq<Note>, desc: seq<Note>, q: Request, last: int)
    requires Ordered(asc, false) && last == |asc| - 1 >= 1
    requires !SelectPair(asc, desc, q).Overflow?
    ensures q.Need(2, q.outputs) < TWO64
    ensures var r := SelectPair(asc, desc, q);
            var exact, need := q.Need(2, q.outputs), q.Need(2, q.outputs + 1);
            if exists x, y :: ExactIn(asc, exact, 0, last, x, y) then
              && r.Selected? && r.fee == q.Fee(2, q.outputs)
              && OutermostExactPair(asc, exact, last, r.notes)
            else
              && need < TWO64
              && if exists x, y :: Covers(asc, need, last, x, y) then
                   && r.Selected? && r.fee == q.Fee(2, q.outputs + 1)
                   && FirstCheapestPair(asc, need, last, r.notes)
                 else r == Greedy(desc, q, 0)
  {
    hide Request.Need, Request.Fee, Greedy, ExactPair, BestPair, Sum, Ordered, ExactIn, Covers, NoBetter,
         OutermostExactPair, FirstCheapestPair;
    var exact, need := q.Need(2, q.outputs), q.Need(2, q.outputs + 1);
    if exact < TWO64 {
      ExactPairFound(asc, exact, last);
      if need < TWO64 {
        BestPairFound(asc, need, last);
      }
    }
  }

  lemma ExactPairFound(asc: seq<Note>, need: uint64, last: int)
    requires Ordered(asc, false) && last == |asc| - 1 >= 1
    ensures match ExactPair(asc, need, 0, last)
            case NoPair => !exists x, y :: ExactIn(asc, need, 0, last, x, y)
            case PairOverflow => true
            case Pair(a, b) =>
              && 0 <= a < b < |asc| && ExactIn(asc, need, 0, last, a, b)
              && OutermostExactPair(asc, need, last, [asc[a], asc[b]])
  {
    hide ExactPair, Ordered;
    ExactPairIsComplete(asc, need, 0, last);
    var p := ExactPair(asc, need, 0, last);
    if p.Pair? {
      assert ExactIn(asc, need, 0, last, p.i, p.j);
    }
  }

  lemma BestPairFound(asc: seq<Note>, need: uint64, last: int)
    requires Ordered(asc, false) && last == |asc| - 1 >= 1
    ensures match BestPair(asc, need, last)
            case NoPair => !exists x, y :: Covers(asc, need, last, x, y)
            case PairOverflow => true
            case Pair(a, b) =>
              && Covers(asc, need, last, a, b)
              && FirstCheapestPair(asc, need, last, [asc[a], asc[b]])
  {
    hide BestPair, Ordered, NoBetter;
    BestPairIsBest(asc, need, last);
  }

  lemma SinglesAreNotSelected(notes: seq<Note>, q: Request)
    requires notes != [] && SinglesFail(notes, q)
    ensures var r := Select(notes, q);
            r == SelectPair(SortNotes(notes, false), SortNotes(notes, true), q) || r.Overflow?
  {
    hide Request.Need, Request.Fee, SelectPair, Sum, SortNotes, Ordered;
    var asc := SortNotes(notes, false);
    assert forall k :: 0 <= k < |asc| ==> asc[k] in multiset(asc);
  }

  lemma ExactPhase(notes: seq<Note>, asc: seq<Note>, q: Request, r: Selection)
    requires asc == SortNotes(notes, false) && |asc| >= 2
    requires r == SelectPair(asc, SortNotes(notes, true), q) && !r.Overflow?
    ensures q.Need(2, q.outputs) < TWO64
    ensures var p := ExactPair(asc, q.Need(2, q.outputs), 0, |asc| - 1);
            if exists c :: PairOf(notes, c) && FundsExactly(q, c)
            then r.Selected? && |r.notes| == 2 && FundsExactly(q, r.notes)
            else p.NoPair?
  {
    var need := q.Need(2, q.outputs);
    var p := ExactPair(asc, need, 0, |asc| - 1);
    ExactPairIsComplete(asc, need, 0, |asc| - 1);
    if p.Pair? {
      TwoNotes(asc, p.i, p.j);
      var c := [asc[p.i], asc[p.j]];
      assert PairOf(notes, c) && FundsExactly(q, c);
    } else {
      forall c | PairOf(notes, c)
        ensures !FundsExactly(q, c)
      {
        var x, y := PairHasIndices(asc, c);
        assert !ExactIn(asc, need, 0, |asc| - 1, x, y);
      }
    }
  }

  /** Among pairs reaching `need`, none is cheaper than the one the scan keeps. */
  lemma BestPairIsCheapest(asc: seq<Note>, need: uint64, c: seq<Note>)
    requires Ordered(asc, false) && |asc| >= 2
    requires forall k :: 0 <= k < |asc| ==> asc[k].value < need
    requires PairOf(asc, c) && Sum(c) >= need
    ensures match BestPair(asc, need, |asc| - 1)
            case NoPair => false
            case PairOverflow => true
            case Pair(i, j) => PairSum(asc, i, j) <= Sum(c)
  {
    hide Sum, BestPair;
    BestPairIsBest(asc, need, |asc| - 1);
    var x, y := PairHasIndices(asc, c);
    assert Covers(asc, need, |asc| - 1, x, y);
  }

  /** What the fourth phase makes of the pair the scan keeps. */
  lemma BestPairIsReturned(asc: seq<Note>, desc: seq<Note>, q: Request)
    requires Ordered(asc, false) && |asc| >= 2
    requires !SelectPair(asc, desc, q).Overflow?
    requires q.Need(2, q.outputs) < TWO64
    requires ExactPair(asc, q.Need(2, q.outputs), 0, |asc| - 1).NoPair?
    ensures q.Need(2, q.outputs + 1) < TWO64
    ensures var r := SelectPair(asc, desc, q);
            match BestPair(asc, q.Need(2, q.outputs + 1), |asc| - 1)
            case PairOverflow => false
            case NoPair => r == Greedy(desc, q, 0)
            case Pair(i, j) =>
              && r.Selected? && PairOf(asc, r.notes) && Funds(q, r.notes)
              && Sum(r.notes) == PairSum(asc, i, j)
  {
    hide Request.Need, Request.Fee, Greedy, ExactPair, BestPair, Sum, Before;
    var need := q.Need(2, q.outputs + 1);
    if need < TWO64 {
      var b := BestPair(asc, need, |asc| - 1);
      if b.Pair? {
        TwoNotes(asc, b.i, b.j);
        BestPairIsBest(asc, need, |asc| - 1);
      }
    }
  }

  lemma AscendingNotesStayBelow(notes: seq<Note>, asc: seq<Note>, q: Request)
    requires asc == SortNotes(notes, false)
    requires SinglesFail(notes, q)
    ensures forall k :: 0 <= k < |asc| ==> asc[k].value < q.Need(2, q.outputs + 1)
  {
    hide Request.Need, Request.Fee, SortNotes, Ordered, Before, SinglesFail;
    PairBreakIsUnreachable(notes, q);
    SameMembers(notes, asc);
  }

  lemma FundingPairCosts(notes: seq<Note>, asc: seq<Note>, q: Request, c: seq<Note>)
    requires asc == SortNotes(notes, false) && |asc| >= 2
    requires SinglesFail(notes, q) && q.Need(2, q.outputs + 1) < TWO64
    requires PairOf(notes, c) && Funds(q, c)
    ensures match BestPair(asc, q.Need(2, q.outputs + 1), |asc| - 1)
            case NoPair => false
            case PairOverflow => true
            case Pair(i, j) => PairSum(asc, i, j) <= Sum(c)
  {
    hide Request.Need, Request.Fee, Sum, SortNotes, Ordered, Before, BestPair, SinglesFail;
    AscendingNotesStayBelow(notes, asc, q);
    BestPairIsCheapest(asc, q.Need(2, q.outputs + 1), c);
  }

  lemma BestPhase(notes: seq<Note>, asc: seq<Note>, q: Request, r: Selection)
    requires asc == SortNotes(notes, false) && |asc| >= 2
    requires SinglesFail(notes, q)
    requires r == SelectPair(asc, SortNotes(notes, true), q) && !r.Overflow?
    requires q.Need(2, q.outputs) < TWO64
    requires ExactPair(asc, q.Need(2, q.outputs), 0, |asc| - 1).NoPair?
    ensures if exists c :: PairOf(notes, c) && Funds(q, c)
            then && r.Selected? && |r.notes| == 2 && Funds(q, r.notes)
                 && forall c :: PairOf(notes, c) && Funds(q, c) ==> Sum(r.notes) <= Sum(c)
            else r == Greedy(SortNotes(notes, true), q, 0)
  {
    hide Request.Need, Request.Fee, Greedy, SelectPair, Sum, SortNotes, Before, BestPair, ExactPair, Funds, SinglesFail;
    BestPairIsReturned(asc, SortNotes(notes, true), q);
    forall c | PairOf(notes, c) && Funds(q, c)
      ensures r.Selected? && PairOf(notes, r.notes) && Funds(q, r.notes) && Sum(r.notes) <= Sum(c)
    {
      FundingPairCosts(notes, asc, q, c);
    }
  }

  // ----- completeness and input-count minimality -----

  /** Every answer other than an overflow comes from one note, from two, or from the greedy phase. */
  lemma PhaseOfAnswer(notes: seq<Note>, q: Request)
    requires notes != []
    requires !Select(notes, q).Overflow?
    ensures var r := Select(notes, q);
            || (r.Selected? && |r.notes| == 1)
            || (SinglesFail(notes, q) && r.Selected? && |r.notes| == 2)
            || (SinglesFail(notes, q) && r == Greedy(SortNotes(notes, true), q, 0))
  {
    SingleStage(notes, q);
    if SinglesFail(notes, q) {
      PairPhasesAreOptimal(notes, q);
    }
  }

  lemma NothingPaysForItself(q: Request)
    requires CountsFit(0, q.outputs + 1)
    ensures !Funds(q, [])
  {
    FeeIsPositive(0, q.outputs + 1, q.policy);
  }

  lemma OneNoteFails(notes: seq<Note>, q: Request, c: seq<Note>)
    requires SinglesFail(notes, q)
    requires FromWallet(c, notes) && |c| == 1
    ensures !Funds(q, c)
  {
    assert c == [c[0]];
    OneNote(c, 0);
    assert c[0] in multiset(c);
  }

  /**
   * Input-count minimality: when the search selects `k` notes, no choice of fewer candidates
   * pays the amount and its own fee with a change output.
   */
  lemma SelectionIsMinimal(notes: seq<Note>, q: Request, c: seq<Note>)
    requires Select(notes, q).Selected?
    requires multiset(c) <= multiset(notes) && |c| < |Select(notes, q).notes|
    requires c == [] ==> CountsFit(0, q.outputs + 1)
    ensures !Funds(q, c)
  {
    hide Request.Need, Request.Fee, Select, Greedy, Sum, SortNotes, CountsFit;
    if c == [] {
      NothingPaysForItself(q);
      return;
    }
    var r := Select(notes, q);
    assert notes != [] by {
      SubsetSize(c, notes);
    }
    PhaseOfAnswer(notes, q);
    if |c| == 1 && SinglesFail(notes, q) {
      OneNoteFails(notes, q, c);
    } else {
      GreedyStopsAtFirstSuccess(SortNotes(notes, true), q, 0);
      SubsetSize(c, notes);
      assert GoesOn(SortNotes(notes, true), q, |c|);
      TopFailsForAll(notes, q, c);
    }
  }

  /**
   * Completeness: insufficient funds is reported only when no choice of candidates, of any size,
   * pays the amount and its own fee with a change output.
   */
  lemma InsufficientIsTruthful(notes: seq<Note>, q: Request, c: seq<Note>)
    requires Select(notes, q).Insufficient?
    requires multiset(c) <= multiset(notes)
    requires c == [] ==> CountsFit(0, q.outputs + 1)
    ensures !Funds(q, c)
  {
    hide Request.Need, Request.Fee, Greedy, Sum, SortNotes, SelectSingle, CountsFit;
    if c == [] {
      NothingPaysForItself(q);
      return;
    }
    SubsetSize(c, notes);
    PhaseOfAnswer(notes, q);
    GreedyStopsAtFirstSuccess(SortNotes(notes, true), q, 0);
    assert GoesOn(SortNotes(notes, true), q, |c|);
    TopFailsForAll(notes, q, c);
  }

  /** Some prefix of the largest-first order pays exactly, leaving no change. */
  ghost predicate PrefixPaysExactly(notes: seq<Note>, q: Request) {
    exists n :: 0 < n <= |notes| && FundsExactly(q, SortNotes(notes, true)[..n])
  }

  ghost predicate SmallChoicePaysExactly(notes: seq<Note>, q: Request) {
    exists c :: FromWallet(c, notes) && |c| <= 2 && FundsExactly(q, c)
  }

  ghost predicate SomeChoicePays(notes: seq<Note>, q: Request) {
    exists c :: FromWallet(c, notes) && Funds(q, c)
  }

  /** Exactly when a selection is made, overflow aside. */
  lemma SelectionSucceedsIff(notes: seq<Note>, q: Request)
    requires !Select(notes, q).Overflow?
    ensures Select(notes, q).Selected? <==>
              || SomeChoicePays(notes, q)
              || SmallChoicePaysExactly(notes, q)
              || PrefixPaysExactly(notes, q)
  {
    hide Request.Need, Request.Fee, Greedy, Sum, SortNotes, SelectSingle;
    var r, desc := Select(notes, q), SortNotes(notes, true);
    SelectionIsSound(notes, q);
    if r.Selected? {
      if FundsExactly(q, r.notes) && !SmallChoicePaysExactly(notes, q) {
        PhaseOfAnswer(notes, q);
        GreedyStopsAtFirstSuccess(desc, q, 0);
      }
    } else {
      forall c | FromWallet(c, notes)
        ensures !Funds(q, c) && (|c| <= 2 ==> !FundsExactly(q, c))
      {
        InsufficientIsTruthful(notes, q, c);
        SubsetSize(c, notes);
        if |c| <= 2 {
          SmallExactIsFound(notes, q, c);
        }
      }
      if notes != [] {
        PhaseOfAnswer(notes, q);
        GreedyStopsAtFirstSuccess(desc, q, 0);
        forall n | 0 < n <= |notes|
          ensures !FundsExactly(q, desc[..n])
        {
          assert GoesOn(desc, q, n);
        }
      }
    }
  }

  /** Exactly the choices the search tests without change: one or two notes, or a largest-first prefix. */
  ghost predicate PaysExactly(notes: seq<Note>, q: Request) {
    SmallChoicePaysExactly(notes, q) || PrefixPaysExactly(notes, q)
  }

  /** Some number of the most valuable notes pays with change. */
  ghost predicate LargestPay(notes: seq<Note>, q: Request) {
    exists n :: 0 < n <= |notes| && Funds(q, SortNotes(notes, true)[..n])
  }

  lemma LargestAreFromWallet(notes: seq<Note>, n: nat)
    requires 0 < n <= |notes|
    ensures var top := SortNotes(notes, true)[..n]; FromWallet(top, notes) && |top| == n
  {
    SumSplit(SortNotes(notes, true), n);
  }

  /** Whether any choice pays with change is decided by the `|notes|` largest-first prefixes. */
  lemma SomeChoicePaysIff(notes: seq<Note>, q: Request)
    ensures SomeChoicePays(notes, q) <==> LargestPay(notes, q)
  {
    hide Request.Need, Request.Fee, Sum, SortNotes, Ordered;
    var desc := SortNotes(notes, true);
    forall c | FromWallet(c, notes) && Funds(q, c)
      ensures LargestPay(notes, q)
    {
      LargestAreFirst(desc, c);
      assert Funds(q, desc[..|c|]);
    }
    forall n | 0 < n <= |notes| && Funds(q, desc[..n])
      ensures SomeChoicePays(notes, q)
    {
      LargestAreFromWallet(notes, n);
    }
  }

  /** When a selection is made, decided before the call: sums and comparisons over the sorted notes. */
  lemma SelectionSucceedsIffInBounds(notes: seq<Note>, q: Request)
    requires Sum(notes) < TWO64 && LargestNeed(notes, q) < TWO64
    ensures Select(notes, q).Selected? <==> LargestPay(notes, q) || PaysExactly(notes, q)
    ensures Select(notes, q).Insufficient? <==> !LargestPay(notes, q) && !PaysExactly(notes, q)
  {
    hide Select, Sum, LargestNeed, SortNotes;
    OverflowNeedsLargeNumbers(notes, q);
    SelectionSucceedsIff(notes, q);
    SomeChoicePaysIff(notes, q);
  }

  lemma SmallExactIsFound(notes: seq<Note>, q: Request, c: seq<Note>)
    requires Select(notes, q).Insufficient?
    requires FromWallet(c, notes) && |c| <= 2
    ensures !FundsExactly(q, c)
  {
    hide Request.Need, Request.Fee, Greedy, SortNotes, SelectSingle, Sum;
    SubsetSize(c, notes);
    PhaseOfAnswer(notes, q);
    if |c| == 1 {
      assert c == [c[0]];
      OneNote(c, 0);
      assert c[0] in multiset(c);
    } else if FundsExactly(q, c) {
      PairPhasesAreOptimal(notes, q);
    }
  }

  // ----- the gap between the with-change need and the no-change need -----

  /** The choice pays the amount and the fee of a transaction without a change output. */
  ghost predicate CoversWithoutChange(q: Request, c: seq<Note>) {
    Sum(c) >= q.Need(|c|, q.outputs)
  }

  /**
   * A refusal can only miss choices of no more notes than there are outputs, and only when there
   * are at least two outputs; for a single recipient it is absolute.
   */
  lemma RefusalMissesOnlySmallChoices(notes: seq<Note>, q: Request, c: seq<Note>)
    requires Select(notes, q).Insufficient?
    requires FromWallet(c, notes)
    requires |c| > q.outputs || q.outputs < GRACE_ACTIONS
    ensures !CoversWithoutChange(q, c)
  {
    InsufficientIsTruthful(notes, q, c);
    assert Actions(|c|, q.outputs) == Actions(|c|, q.outputs + 1);
  }

  /** Up to the number of outputs, the notes do not add to the fee. */
  lemma FewNotesCostTheSame(q: Request, k: int)
    requires 1 <= k <= q.outputs && q.outputs >= GRACE_ACTIONS
    ensures q.Need(k, q.outputs) == q.Need(1, q.outputs)
  {
    assert Actions(k, q.outputs) == Actions(1, q.outputs);
  }

  lemma LongerPrefixIsWorthMore(notes: seq<Note>, k: nat, m: nat)
    requires k <= m <= |notes|
    ensures Sum(notes[..k]) <= Sum(notes[..m])
  {
    SumSplit(notes[..m], k);
    assert notes[..m][..k] == notes[..k];
  }

  /** The most valuable notes, as many as there are outputs, cover the amount and the fee for the outputs alone. */
  ghost predicate LargestCoverOutputs(notes: seq<Note>, q: Request) {
    && q.outputs >= GRACE_ACTIONS && notes != []
    && var m := if |notes| < q.outputs then |notes| else q.outputs;
       Sum(SortNotes(notes, true)[..m]) >= q.Need(1, q.outputs)
  }

  ghost predicate SomeChoiceCovers(notes: seq<Note>, q: Request) {
    exists c :: FromWallet(c, notes) && CoversWithoutChange(q, c)
  }

  lemma LargestCover(notes: seq<Note>, q: Request)
    requires LargestCoverOutputs(notes, q)
    ensures SomeChoiceCovers(notes, q)
  {
    var m := if |notes| < q.outputs then |notes| else q.outputs;
    hide Request.Need, Sum, SortNotes;
    LargestAreFromWallet(notes, m);
    FewNotesCostTheSame(q, m);
    assert CoversWithoutChange(q, SortNotes(notes, true)[..m]);
  }

  /** After a refusal, some choice covers the amount without change if and only if this sum does. */
  lemma RefusalMissesIff(notes: seq<Note>, q: Request)
    requires Select(notes, q).Insufficient?
    ensures SomeChoiceCovers(notes, q) <==> LargestCoverOutputs(notes, q)
  {
    hide Request.Need, Request.Fee, Select, Sum, SortNotes, Ordered;
    if LargestCoverOutputs(notes, q) {
      LargestCover(notes, q);
    }
    forall c | FromWallet(c, notes) && CoversWithoutChange(q, c)
      ensures LargestCoverOutputs(notes, q)
    {
      var desc := SortNotes(notes, true);
      SubsetSize(c, notes);
      if |c| > q.outputs || q.outputs < GRACE_ACTIONS {
        RefusalMissesOnlySmallChoices(notes, q, c);
      }
      FewNotesCostTheSame(q, |c|);
      LargestAreFirst(desc, c);
      LongerPrefixIsWorthMore(desc, |c|, if |notes| < q.outputs then |notes| else q.outputs);
    }
  }

  /**
   * The exact condition under which the search refuses a send that some choice covers, decided
   * before the call.
   */
  lemma CoveredSendIsRefusedIff(notes: seq<Note>, q: Request)
    requires Sum(notes) < TWO64 && LargestNeed(notes, q) < TWO64
    ensures Select(notes, q).Insufficient? && SomeChoiceCovers(notes, q) <==>
              LargestCoverOutputs(notes, q) && !LargestPay(notes, q) && !PaysExactly(notes, q)
  {
    hide Select, Sum, LargestNeed, SortNotes, LargestCoverOutputs, LargestPay, PaysExactly, SomeChoiceCovers;
    SelectionSucceedsIffInBounds(notes, q);
    if Select(notes, q).Insufficient? {
      RefusalMissesIff(notes, q);
    }
  }

  // ----- lowering the amount -----

  lemma LowerAmountNeedsLess(q: Request, smaller: uint64, s: seq<Note>)
    requires smaller <= q.amount && Funds(q, s)
    ensures Funds(q.(amount := smaller), s)
  {
    hide FeePolicy.Total, RequiredFeeSend;
  }

  /** A wallet that pays with change still pays every smaller amount. */
  lemma LoweringKeepsSelection(notes: seq<Note>, q: Request, smaller: uint64)
    requires smaller <= q.amount && SomeChoicePays(notes, q)
    requires !Select(notes, q.(amount := smaller)).Overflow?
    ensures SomeChoicePays(notes, q.(amount := smaller))
    ensures Select(notes, q.(amount := smaller)).Selected?
  {
    hide Select, Funds, FromWallet;
    var c :| FromWallet(c, notes) && Funds(q, c);
    LowerAmountNeedsLess(q, smaller, c);
    SelectionSucceedsIff(notes, q.(amount := smaller));
  }

  lemma LowerAmountFits(notes: seq<Note>, q: Request, smaller: uint64)
    requires smaller <= q.amount && LargestNeed(notes, q) < TWO64
    ensures LargestNeed(notes, q.(amount := smaller)) < TWO64
  {
  }

  /**
   * Monotonicity in the amount fails exactly when the larger amount is paid without change and
   * the smaller one neither with change nor to the zatoshi.
   */
  lemma SelectionIsLostByLoweringIff(notes: seq<Note>, q: Request, smaller: uint64)
    requires smaller <= q.amount
    requires Sum(notes) < TWO64 && LargestNeed(notes, q) < TWO64
    ensures var lower := q.(amount := smaller);
            Select(notes, q).Selected? && !Select(notes, lower).Selected? <==>
              PaysExactly(notes, q) && !LargestPay(notes, lower) && !PaysExactly(notes, lower)
  {
    hide Select, Sum, LargestNeed, SortNotes, LargestPay, PaysExactly, SomeChoicePays;
    var lower := q.(amount := smaller);
    LowerAmountFits(notes, q, smaller);
    SelectionSucceedsIffInBounds(notes, q);
    SelectionSucceedsIffInBounds(notes, lower);
    SomeChoicePaysIff(notes, q);
    SomeChoicePaysIff(notes, lower);
    if SomeChoicePays(notes, q) {
      OverflowNeedsLargeNumbers(notes, lower);
      LoweringKeepsSelection(notes, q, smaller);
    }
  }

  /**
   * The search is not complete for choices that would burn their change, and not monotone in
   * the amount: with two outputs a note of 70000 pays 60000, yet 59999 is refused although the
   * note covers it and the two-action fee.
   */
  lemma RefusalCanMissAFundedSend()
    ensures var notes, policy := [Note("a", 0, 70_000)], FeePolicy(1, 0);
            && Select(notes, Request(60_000, 2, policy)) == Selected(notes, 10_000)
            && Select(notes, Request(59_999, 2, policy)) == Insufficient
            && CoversWithoutChange(Request(59_999, 2, policy), notes)
  {
    var n, policy := Note("a", 0, 70_000), FeePolicy(1, 0);
    ExactNoteIsSelected(n, Request(60_000, 2, policy));
    LoneNoteIsRefused(n, Request(59_999, 2, policy));
    OneNote([n], 0);
  }

  lemma ExactNoteIsSelected(n: Note, q: Request)
    requires q.Need(1, q.outputs) == n.value
    ensures Select([n], q) == Selected([n], q.Fee(1, q.outputs))
  {
    hide Request.Need, Request.Fee, SelectPair, Sum;
    SortOfOne(n, false);
    assert FirstEqual([n], n.value, 0) == 0;
  }

  lemma LoneNoteIsRefused(n: Note, q: Request)
    requires q.Need(1, q.outputs) < n.value < q.Need(1, q.outputs + 1)
    requires LargestNeed([n], q) < TWO64
    ensures Select([n], q).Insufficient?
  {
    hide Request.Need, Request.Fee, Select, Sum, LargestNeed;
    OneNote([n], 0);
    OverflowNeedsLargeNumbers([n], q);
    SelectionSucceedsIff([n], q);
    SortOfOne(n, true);
    assert [n][..1] == [n];
    forall c | FromWallet(c, [n])
      ensures c == [n]
    {
      SubsetSize(c, [n]);
      assert c == [c[0]];
      assert c[0] in multiset(c);
    }
  }

  lemma SortOfOne(n: Note, descending: bool)
    ensures SortNotes([n], descending) == [n]
  {
    assert [n][..0] == [];
  }

  // ----- overflow -----

  /** The with-change need of spending every candidate, over the mathematical integers. */
  function LargestNeed(notes: seq<Note>, q: Request): nat {
    q.amount + q.policy.Total(MARGINAL_FEE * Actions(|notes|, q.outputs + 1))
  }

  lemma NeedsFit(notes: seq<Note>, q: Request, k: int, outs: int)
    requires k <= Max(2, |notes|) && outs <= q.outputs + 1
    requires LargestNeed(notes, q) < TWO64
    ensures q.Need(k, outs) < TWO64
  {
    var largest := MARGINAL_FEE * Actions(|notes|, q.outputs + 1);
    assert RequiredFeeSend(k, outs) <= MARGINAL_FEE * Actions(k, outs) <= largest;
    q.policy.TotalMonotone(RequiredFeeSend(k, outs), largest);
  }

  /** The pair phases end in the overflow error: in one of the two searches or in the greedy phase. */
  ghost predicate PairsOverflow(asc: seq<Note>, desc: seq<Note>, q: Request) {
    var exact, need, last := q.Need(2, q.outputs), q.Need(2, q.outputs + 1), |asc| - 1;
    if exact >= TWO64 || (last >= 1 && exists x, y :: StopsAt(asc, exact, 0, last, x, y)) then true
    else if exists x, y :: ExactIn(asc, exact, 0, last, x, y) then false
    else if need >= TWO64 || (last >= 1 && exists x: nat :: OnlyOverflows(asc, need, last, x)) then true
    else if last >= 1 && exists x, y :: Covers(asc, need, last, x, y) then false
    else PrefixOverflows(desc, q)
  }

  /** Some largest-first prefix overflows before any pays. */
  ghost predicate PrefixOverflows(desc: seq<Note>, q: Request) {
    exists n :: 0 < n <= |desc| && TopOverflows(desc, q, n) && forall m :: 0 < m < n ==> GoesOn(desc, q, m)
  }

  /** Before any note is found that pays alone, a need overflows; or no note pays alone and the pair phases do. */
  ghost predicate Overflows(notes: seq<Note>, q: Request) {
    var exact, need := q.Need(1, q.outputs), q.Need(1, q.outputs + 1);
    if notes == [] then false
    else if exact >= TWO64 then true
    else if exists x :: x in notes && x.value == exact then false
    else if need >= TWO64 then true
    else if exists x :: x in notes && x.value >= need then false
    else PairsOverflow(SortNotes(notes, false), SortNotes(notes, true), q)
  }

  /** Exactly when the search ends in the overflow error, over all five phases. */
  lemma SelectionOverflowsIff(notes: seq<Note>, q: Request)
    ensures Select(notes, q).Overflow? <==> Overflows(notes, q)
  {
    hide Request.Need, Request.Fee, SelectPair, PairsOverflow, Sum, SortNotes, Ordered, Before, InsertNote;
    var asc, exact, need := SortNotes(notes, false), q.Need(1, q.outputs), q.Need(1, q.outputs + 1);
    SameMembers(notes, asc);
    PairsOverflowIff(asc, SortNotes(notes, true), q);
    if notes != [] && exact < TWO64 {
      assert (exists x :: x in asc && x.value == exact) <==> FirstEqual(asc, exact, 0) < |asc|;
      if need < TWO64 {
        assert (exists x :: x in asc && x.value >= need) <==> FirstAtLeast(asc, need, 0) < |asc|;
      }
    }
  }

  lemma PairsOverflowIff(asc: seq<Note>, desc: seq<Note>, q: Request)
    requires Ordered(asc, false)
    ensures SelectPair(asc, desc, q).Overflow? <==> PairsOverflow(asc, desc, q)
  {
    hide Request.Need, Request.Fee, Greedy, ExactPair, BestPair, Sum, Ordered, StopsAt, OnlyOverflows, Covers,
         ExactIn, PrefixOverflows;
    var exact, need, last := q.Need(2, q.outputs), q.Need(2, q.outputs + 1), |asc| - 1;
    GreedyOverflowsIff(desc, q);
    if exact < TWO64 && last >= 1 {
      ExactPairOutcome(asc, exact, last);
      if need < TWO64 {
        BestPairOutcome(asc, need, last);
      }
    }
    if last < 1 && exact < TWO64 {
      assert !exists x, y :: ExactIn(asc, exact, 0, last, x, y) by {
        NoPairOfOne(asc, exact, last);
      }
    }
  }

  lemma NoPairOfOne(asc: seq<Note>, need: uint64, last: int)
    requires last == |asc| - 1 < 1
    ensures forall x, y :: !ExactIn(asc, need, 0, last, x, y)
  {
  }

  lemma ExactPairOutcome(asc: seq<Note>, need: uint64, last: int)
    requires Ordered(asc, false) && last == |asc| - 1 >= 1
    ensures var p := ExactPair(asc, need, 0, last);
            && (p.PairOverflow? <==> exists x, y :: StopsAt(asc, need, 0, last, x, y))
            && (p.Pair? ==> exists x, y :: ExactIn(asc, need, 0, last, x, y))
            && (p.NoPair? ==> !exists x, y :: ExactIn(asc, need, 0, last, x, y))
  {
    hide ExactPair, Ordered, StopsAt, ExactIn;
    ExactPairOverflowsIff(asc, need, 0, last);
    ExactPairIsComplete(asc, need, 0, last);
  }

  lemma BestPairOutcome(asc: seq<Note>, need: uint64, last: int)
    requires Ordered(asc, false) && last == |asc| - 1 >= 1
    ensures var p := BestPair(asc, need, last);
            && (p.PairOverflow? <==> exists x: nat :: OnlyOverflows(asc, need, last, x))
            && (p.Pair? ==> exists x, y :: Covers(asc, need, last, x, y))
            && (p.NoPair? ==> !exists x, y :: Covers(asc, need, last, x, y))
  {
    hide BestPair, Ordered, OnlyOverflows, Covers;
    BestPairOverflowsIff(asc, need, last);
    BestPairIsBest(asc, need, last);
  }

  lemma GreedyOverflowsIff(desc: seq<Note>, q: Request)
    ensures Greedy(desc, q, 0).Overflow? <==> PrefixOverflows(desc, q)
  {
    hide Request.Need, Request.Fee, Greedy, Sum, TopFails, TopOverflows, Funds, FundsExactly;
    GreedyStopsAtFirstSuccess(desc, q, 0);
    var r := Greedy(desc, q, 0);
    forall n | 0 < n <= |desc| && TopOverflows(desc, q, n) && forall m :: 0 < m < n ==> GoesOn(desc, q, m)
      ensures r.Overflow?
    {
      OverflowStops(desc, q, n);
      if r.Selected? && |r.notes| < n {
        SelectedPays(desc, q, r.notes);
      }
    }
  }

  lemma OverflowStops(desc: seq<Note>, q: Request, n: nat)
    requires n <= |desc| && TopOverflows(desc, q, n)
    ensures !GoesOn(desc, q, n)
  {
  }

  lemma SelectedPays(desc: seq<Note>, q: Request, s: seq<Note>)
    requires |s| <= |desc| && s == desc[..|s|] && (FundsExactly(q, s) || Funds(q, s))
    ensures !GoesOn(desc, q, |s|)
  {
  }

  lemma PairFits(notes: seq<Note>, asc: seq<Note>, x: nat, y: nat)
    requires asc == SortNotes(notes, false)
    requires x < y < |asc|
    ensures PairSum(asc, x, y) <= Sum(notes)
  {
    TwoNotes(asc, x, y);
    SumIsMonotone([asc[x], asc[y]], notes);
  }

  /** If everything together fits in 64 bits, no overflow error is ever returned. */
  lemma OverflowNeedsLargeNumbers(notes: seq<Note>, q: Request)
    requires Sum(notes) < TWO64
    requires LargestNeed(notes, q) < TWO64
    ensures !Select(notes, q).Overflow?
  {
    hide Request.Need, Request.Fee, Greedy, Sum, SortNotes, SelectPair, LargestNeed;
    if notes != [] {
      NeedsFit(notes, q, 1, q.outputs);
      NeedsFit(notes, q, 1, q.outputs + 1);
      SingleStage(notes, q);
      PairStageFits(notes, SortNotes(notes, false), q);
    }
  }

  lemma PairStageFits(notes: seq<Note>, asc: seq<Note>, q: Request)
    requires asc == SortNotes(notes, false)
    requires Sum(notes) < TWO64
    requires LargestNeed(notes, q) < TWO64
    ensures !SelectPair(asc, SortNotes(notes, true), q).Overflow?
  {
    hide Request.Need, Request.Fee, Greedy, Sum, SortNotes, LargestNeed, ExactPair, BestPair, Before;
    NeedsFit(notes, q, 2, q.outputs);
    NeedsFit(notes, q, 2, q.outputs + 1);
    GreedyFits(notes, q);
    if |asc| >= 2 {
      var exact, need, n := q.Need(2, q.outputs), q.Need(2, q.outputs + 1), |asc| - 1;
      ExactPairIsComplete(asc, exact, 0, n);
      BestPairIsBest(asc, need, n);
      forall x, y | 0 <= x < y < |asc|
        ensures PairSum(asc, x, y) < TWO64
      {
        PairFits(notes, asc, x, y);
      }
      assert !ExactPair(asc, exact, 0, n).PairOverflow?;
      assert !BestPair(asc, need, n).PairOverflow?;
    }
  }

  lemma GreedyFits(notes: seq<Note>, q: Request)
    requires Sum(notes) < TWO64
    requires LargestNeed(notes, q) < TWO64
    ensures !Greedy(SortNotes(notes, true), q, 0).Overflow?
  {
    hide Request.Need, Request.Fee, Greedy, Sum, SortNotes, LargestNeed;
    var desc := SortNotes(notes, true);
    GreedyStopsAtFirstSuccess(desc, q, 0);
    forall n | 0 < n <= |desc|
      ensures !TopOverflows(desc, q, n)
    {
      NeedsFit(notes, q, n, q.outputs);
      NeedsFit(notes, q, n, q.outputs + 1);
      SumSplit(desc, n);
      SumIsMonotone(desc[..n], notes);
    }
  }

  // ----- how many notes are selected -----

  /** Taking the `n` most valuable notes pays, with change or exactly. */
  ghost predicate TopPays(notes: seq<Note>, q: Request, n: nat) {
    0 < n <= |notes| && !TopFails(SortNotes(notes, true), q, n)
  }

  ghost predicate SelectsMoreThan(r: Selection, k: nat) {
    r.Selected? && |r.notes| > k
  }

  /** Nothing the search tests pays with `k` notes or fewer, but some larger prefix does. */
  ghost predicate PaysOnlyBeyond(notes: seq<Note>, q: Request, k: nat) {
    && !SmallChoicePaysExactly(notes, q)
    && (forall n: nat :: n <= k ==> !TopPays(notes, q, n))
    && exists n :: TopPays(notes, q, n)
  }

  lemma TopPaysForChoice(notes: seq<Note>, q: Request, c: seq<Note>)
    requires FromWallet(c, notes) && Funds(q, c)
    ensures TopPays(notes, q, |c|)
  {
    hide Request.Need, Request.Fee, Sum, SortNotes, Ordered;
    LargestAreFirst(SortNotes(notes, true), c);
  }

  /**
   * More than `k >= 2` notes are selected exactly when no one or two notes pay exactly, none of
   * the first `k` largest-first prefixes pays, and a longer one does.
   */
  lemma SelectsMoreThanIff(notes: seq<Note>, q: Request, k: nat)
    requires k >= 2
    requires !Select(notes, q).Overflow?
    ensures SelectsMoreThan(Select(notes, q), k) <==> PaysOnlyBeyond(notes, q, k)
  {
    hide Request.Need, Request.Fee, Greedy, Sum, SortNotes, SelectSingle, Funds, FundsExactly;
    var r, desc := Select(notes, q), SortNotes(notes, true);
    SelectionIsSound(notes, q);
    if notes != [] {
      PhaseOfAnswer(notes, q);
      GreedyStopsAtFirstSuccess(desc, q, 0);
      if r.Selected? && |r.notes| > 2 {
        assert TopPays(notes, q, |r.notes|);
        forall n | 0 < n < |r.notes|
          ensures TopFails(desc, q, n)
        {
          assert GoesOn(desc, q, n);
        }
        LargeSelectionHasNoSmallExact(notes, q);
      } else if r.Selected? {
        if Funds(q, r.notes) {
          TopPaysForChoice(notes, q, r.notes);
        }
      } else {
        forall n | 0 < n <= |notes|
          ensures TopFails(desc, q, n)
        {
          assert GoesOn(desc, q, n);
        }
      }
    }
  }

  lemma LargeSelectionHasNoSmallExact(notes: seq<Note>, q: Request)
    requires Select(notes, q).Selected? && |Select(notes, q).notes| > 2
    ensures !SmallChoicePaysExactly(notes, q)
  {
    hide Request.Need, Request.Fee, Greedy, SortNotes, SelectSingle, Sum;
    forall c | FromWallet(c, notes) && |c| <= 2
      ensures !FundsExactly(q, c)
    {
      SubsetSize(c, notes);
      PhaseOfAnswer(notes, q);
      if |c| == 1 {
        assert c == [c[0]];
        OneNote(c, 0);
        assert c[0] in multiset(c);
      } else if FundsExactly(q, c) {
        PairPhasesAreOptimal(notes, q);
      }
    }
  }

  // ----- determinism -----

  /** The answer depends on the candidates only as a multiset, never on their order. */
  lemma SelectionIgnoresOrder(a: seq<Note>, b: seq<Note>, q: Request)
    requires multiset(a) == multiset(b)
    ensures Select(a, q) == Select(b, q)
  {
    SortIgnoresOrder(a, b, false);
    SortIgnoresOrder(a, b, true);
    SubsetSize(a, b);
    SubsetSize(b, a);
  }
}
