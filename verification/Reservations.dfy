/**
 * Coordinating several plans: every plan excludes the ids returned before it, in whatever mode
 * it is made and whatever the wallet looks like by then.
 */
module Reservations {
  import opened Machine
  import opened Notes
  import opened NoteIds
  import opened SelectionTheorems
  import opened Planner
  import opened PlannerTheorems
  import C = Consolidation
  import S = Selection

  datatype Job = Send(outputs: seq<uint64>, minChange: uint64) | Sweep | Consolidate(maxSpends: int)

  ghost function MakePlan(listed: seq<Note>, st: Settings, job: Job): Result {
    match job
    case Send(outputs, minChange) => SendPlan(listed, st, outputs, minChange)
    case Sweep => SweepPlan(listed, st)
    case Consolidate(maxSpends) => ConsolidatePlan(listed, st, maxSpends)
  }

  /** One returned plan: what was listed, what was asked, and the ids returned. */
  datatype Round = Round(listed: seq<Note>, settings: Settings, job: Job, ids: seq<string>)

  ghost predicate Returned(r: Round) {
    var p := MakePlan(r.listed, r.settings, r.job);
    p.Plan? && r.ids == PlanIds(p.notes)
  }

  /** All ids returned by the given rounds. */
  function Reserved(rounds: seq<Round>): seq<string> {
    if rounds == [] then [] else Reserved(rounds[..|rounds| - 1]) + rounds[|rounds| - 1].ids
  }

  /** A run of the coordinator's loop: each round excludes everything returned before it. */
  ghost predicate IsRun(rounds: seq<Round>) {
    forall r :: 0 <= r < |rounds| ==>
      Returned(rounds[r]) && IdSet(Reserved(rounds[..r])) <= IdSet(rounds[r].settings.excluded)
  }

  /** In every mode a plan spends candidates, each at most as often as it is listed. */
  lemma PlanSpendsCandidates(listed: seq<Note>, st: Settings, job: Job)
    requires MakePlan(listed, st, job).Plan?
    ensures var p := MakePlan(listed, st, job);
            multiset(p.notes) <= multiset(Candidates(listed, st)) && WithinSignerLimits(p)
  {
    match job
    case Send(outputs, minChange) =>
      var fee := SendPlanIsChosen(listed, st, outputs, minChange);
    case Sweep =>
      SweepConservesValue(listed, st);
    case Consolidate(maxSpends) =>
      ConsolidationConservesValue(listed, st, maxSpends);
  }

  /** A plan's notes are listed, large enough, not excluded, and its ids are distinct and canonical. */
  lemma PlanAvoidsExcluded(listed: seq<Note>, st: Settings, job: Job)
    requires MakePlan(listed, st, job).Plan?
    ensures var p := MakePlan(listed, st, job);
            && multiset(p.notes) <= multiset(listed)
            && ValidIds(PlanIds(p.notes))
            && (forall x :: x in p.notes ==> x.value >= st.minNote)
            && IdSet(PlanIds(p.notes)) !! IdSet(st.excluded)
  {
    hide MakePlan, ValidIds, Candidates;
    PlanSpendsCandidates(listed, st, job);
    var p := MakePlan(listed, st, job);
    CandidatesAreExact(listed, st);
    forall x | x in p.notes
      ensures x.value >= st.minNote && NoteId(x.txid, x.index) !in IdSet(st.excluded)
    {
      assert x in multiset(p.notes) && x in multiset(Candidates(listed, st));
    }
  }

  lemma {:induction false} ReservedHas(rounds: seq<Round>, r: nat)
    requires r < |rounds|
    ensures IdSet(rounds[r].ids) <= IdSet(Reserved(rounds))
  {
    if r < |rounds| - 1 {
      ReservedHas(rounds[..|rounds| - 1], r);
    }
  }

  /** The plans of a run never share a note id. */
  lemma RunIsDisjoint(rounds: seq<Round>, r: nat, t: nat)
    requires IsRun(rounds)
    requires r < t < |rounds|
    ensures IdSet(rounds[r].ids) !! IdSet(rounds[t].ids)
  {
    hide MakePlan, ValidIds, NoteId;
    var last := rounds[t];
    PlanAvoidsExcluded(last.listed, last.settings, last.job);
    ReservedHas(rounds[..t], r);
    assert rounds[..t][r] == rounds[r];
  }

  /** Everything a run has returned is accepted as the exclusion list of the next plan. */
  lemma {:induction false} ReservedIsAccepted(rounds: seq<Round>)
    requires IsRun(rounds)
    ensures ValidIds(Reserved(rounds))
  {
    hide MakePlan, NoteId, Accepted;
    if rounds != [] {
      var n, last := |rounds| - 1, rounds[|rounds| - 1];
      var front := rounds[..n];
      assert forall r :: 0 <= r < n ==> front[r] == rounds[r] && front[..r] == rounds[..r];
      ReservedIsAccepted(front);
      PlanAvoidsExcluded(last.listed, last.settings, last.job);
      ValidIdsConcat(Reserved(front), last.ids);
    }
  }

  lemma ValidIdsConcat(a: seq<string>, b: seq<string>)
    requires ValidIds(a) && ValidIds(b) && IdSet(a) !! IdSet(b)
    ensures ValidIds(a + b)
  {
    hide Accepted;
    assert forall i :: 0 <= i < |a| ==> a[i] in IdSet(a);
    assert forall i :: 0 <= i < |b| ==> b[i] in IdSet(b);
  }

  lemma CandidatesIgnoreOrder(a: seq<Note>, b: seq<Note>, st: Settings)
    requires multiset(a) == multiset(b)
    ensures multiset(Candidates(a, st)) == multiset(Candidates(b, st))
  {
    FilterIgnoresOrder(a, b, AtLeast(st.minNote));
    FilterIgnoresOrder(Filter(a, AtLeast(st.minNote)), Filter(b, AtLeast(st.minNote)), NotExcluded(IdSet(st.excluded)));
  }

  lemma FilterIgnoresOrder(a: seq<Note>, b: seq<Note>, keep: Note -> bool)
    requires multiset(a) == multiset(b)
    ensures multiset(Filter(a, keep)) == multiset(Filter(b, keep))
  {
    FilterKeeps(a, keep);
    FilterKeeps(b, keep);
  }

  /** The order in which the wallet lists its notes does not change a send or a consolidation. */
  lemma PlansIgnoreListingOrder(a: seq<Note>, b: seq<Note>, st: Settings, job: Job)
    requires multiset(a) == multiset(b)
    requires !job.Sweep?
    ensures MakePlan(a, st, job) == MakePlan(b, st, job)
  {
    hide Candidates, Choose, FinishSend, C.Consolidate, PayAll, ValidIds;
    CandidatesIgnoreOrder(a, b, st);
    var ca, cb := Candidates(a, st), Candidates(b, st);
    assert |multiset(ca)| == |ca| && |multiset(cb)| == |cb|;
    match job
    case Send(outputs, minChange) =>
      if ValidOutputs(outputs) {
        ChoiceIgnoresOrder(ca, cb, SendRequest(st, outputs));
      }
    case Consolidate(maxSpends) =>
      C.ConsolidationIgnoresOrder(ca, cb, maxSpends, st.Policy());
  }

  /** Two results that differ at most in the order of the notes. */
  ghost predicate SameUpToOrder(a: Result, b: Result) {
    if a.Plan? then
      b.Plan? && a.outputs == b.outputs && a.fee == b.fee && a.hasChange == b.hasChange
      && multiset(a.notes) == multiset(b.notes)
    else
      a == b
  }

  /** A sweep spends its notes in listing order; nothing else about it depends on that order. */
  lemma SweepIgnoresListingOrder(a: seq<Note>, b: seq<Note>, st: Settings)
    requires multiset(a) == multiset(b)
    ensures SameUpToOrder(SweepPlan(a, st), SweepPlan(b, st))
  {
    hide Candidates, PayAll, ValidIds, Sum, SameUpToOrder;
    CandidatesIgnoreOrder(a, b, st);
    var ca, cb := Candidates(a, st), Candidates(b, st);
    assert |multiset(ca)| == |ca| && |multiset(cb)| == |cb|;
    C.SumIsOrderFree(ca, cb);
    SameRefusals();
    forall fee: uint64
      ensures SameUpToOrder(PayAll(ca, fee), PayAll(cb, fee))
    {
      PayAllIgnoresOrder(ca, cb, fee);
    }
  }

  lemma SameRefusals()
    ensures forall e :: SameUpToOrder(Refused(e), Refused(e))
  {
  }

  lemma PayAllIgnoresOrder(a: seq<Note>, b: seq<Note>, fee: uint64)
    requires multiset(a) == multiset(b)
    ensures SameUpToOrder(PayAll(a, fee), PayAll(b, fee))
  {
    hide Sum, ValidIds;
    assert |multiset(a)| == |a| && |multiset(b)| == |b|;
    C.SumIsOrderFree(a, b);
    if ValidIds(PlanIds(a)) {
      ChoiceHasValidIds(a, b);
    }
    if ValidIds(PlanIds(b)) {
      ChoiceHasValidIds(b, a);
    }
  }

  lemma ChoiceIgnoresOrder(a: seq<Note>, b: seq<Note>, q: S.Request)
    requires multiset(a) == multiset(b)
    ensures Choose(a, q) == Choose(b, q)
  {
    hide S.Select;
    SelectionIgnoresOrder(a, b, q);
  }
}
