/**
 * What a returned plan guarantees, whichever phase selected its notes: value is conserved, the
 * fee is enough for the final shape of the transaction, refusals are truthful and no note is
 * spent twice.
 */
module PlannerTheorems {
  import opened Machine
  import opened Notes
  import opened Fees
  import opened Selection
  import opened SelectionTheorems
  import opened NoteIds
  import opened Planner
  import C = Consolidation

  /** What the inputs are worth beyond outputs and fee. */
  function ChangeOf(p: Result): int
    requires p.Plan?
  {
    Sum(p.notes) - Total(p.outputs) - p.fee
  }

  /** The number of outputs the transaction really has. */
  function FinalOutputs(p: Result): nat
    requires p.Plan?
  {
    |p.outputs| + (if p.hasChange then 1 else 0)
  }

  /** The multiplier the caller asked for. */
  function Multiplier(st: Settings): uint64 {
    if st.multiplier == 0 then 20 else st.multiplier
  }

  /** The conventional fee in the numbers of the request: 5000 per action, the multiplier, the addend. */
  function FeeFor(spends: nat, outputs: nat, st: Settings): nat {
    5_000 * Actions(spends, outputs) * Multiplier(st) + st.add
  }

  /** The conventional fee for the final shape of the transaction. */
  function FinalFee(p: Result, st: Settings): nat
    requires p.Plan?
  {
    FeeFor(|p.notes|, FinalOutputs(p), st)
  }

  lemma PolicyFeeInNumbers(spends: nat, outputs: nat, st: Settings)
    requires spends <= 200 && outputs <= 201
    ensures st.Policy().Total(RequiredFeeSend(spends, outputs)) == FeeFor(spends, outputs, st)
  {
    FeeInNumbers(spends, outputs, st.Policy());
  }

  /** Inputs equal outputs plus fee plus change, and the change flag says whether there is change. */
  ghost predicate Conserves(p: Result)
    requires p.Plan?
  {
    ChangeOf(p) >= 0 && (p.hasChange <==> ChangeOf(p) > 0)
  }

  ghost predicate WithinSignerLimits(p: Result)
    requires p.Plan?
  {
    |p.notes| <= 200 && FinalOutputs(p) <= 200 && ValidIds(PlanIds(p.notes))
  }

  /** The request passes every check that does not depend on the mode. */
  ghost predicate WellFormed(st: Settings) {
    && st.header.rpcUrl != "" && st.header.walletId != "" && st.header.account < 0x8000_0000
    && (st.header.expiryOffset == 0 || st.header.expiryOffset >= 4)
    && (forall a :: a in st.header.toAddresses ==> a != "")
    && ValidIds(st.excluded)
  }

  ghost predicate WellFormedSend(st: Settings) {
    WellFormed(st) && st.header.kindSupported && st.header.changeAddress != ""
  }

  // ----- send plans -----

  /** The request a send plan makes of the selector. */
  function SendRequest(st: Settings, outputs: seq<uint64>): Request
    requires Total(outputs) < TWO64
  {
    Request(Total(outputs), |outputs|, FeePolicy(Multiplier(st), st.add))
  }

  /** A plan exists only after a sound choice, which it spends unchanged. */
  lemma SendPlanIsChosen(listed: seq<Note>, st: Settings, outputs: seq<uint64>, minChange: uint64) returns (fee: uint64)
    requires SendPlan(listed, st, outputs, minChange).Plan?
    ensures st.header.AcceptedForSend() && ValidIds(st.excluded) && ValidOutputs(outputs)
    ensures var p, q := SendPlan(listed, st, outputs, minChange), SendRequest(st, outputs);
            && Choose(Candidates(listed, st), q) == Chosen(p.notes, fee)
            && Sound(Candidates(listed, st), q, Selected(p.notes, fee))
            && p == FinishSend(p.notes, outputs, fee, minChange)
            && p.outputs == outputs && WithinSignerLimits(p)
  {
    hide Select, Candidates, Sound, Sum, SuppressDustChange;
    var q := SendRequest(st, outputs);
    SelectionIsSound(Candidates(listed, st), q);
    fee := Select(Candidates(listed, st), q).fee;
  }

  /** A sound choice covers the amount and the returned fee. */
  lemma ChoiceCoversFee(notes: seq<Note>, q: Request, s: seq<Note>, fee: uint64)
    requires Sound(notes, q, Selected(s, fee))
    ensures Sum(s) >= q.amount + fee
  {
    hide FeePolicy.Total, RequiredFeeSend;
  }

  /**
   * After a choice the totals errors are unreachable: the sum of the selected notes fits, dust
   * suppression succeeds, and only the signer's limits can still refuse.
   */
  lemma TotalsErrorsAreUnreachable(notes: seq<Note>, q: Request, s: seq<Note>, fee: uint64,
                                   outputs: seq<uint64>, minChange: uint64)
    requires Sound(notes, q, Selected(s, fee))
    requires q.amount == Total(outputs)
    ensures FinishSend(s, outputs, fee, minChange) != Refused(Other)
    ensures Sum(s) < TWO64
    ensures SuppressDustChange(Sum(s), Total(outputs), fee, minChange).Suppressed?
  {
    ChoiceCoversFee(notes, q, s, fee);
    hide Sound, Sum, Total, ValidIds;
    assert Sum(s) < TWO64 by {
      SoundSumFits(notes, q, s, fee);
    }
  }

  lemma SoundSumFits(notes: seq<Note>, q: Request, s: seq<Note>, fee: uint64)
    requires Sound(notes, q, Selected(s, fee))
    ensures Sum(s) < TWO64
  {
  }

  /** Conservation for sends: nothing is lost, and change is nothing or at least the minimum. */
  lemma SendConservesValue(listed: seq<Note>, st: Settings, outputs: seq<uint64>, minChange: uint64)
    requires SendPlan(listed, st, outputs, minChange).Plan?
    ensures var p := SendPlan(listed, st, outputs, minChange);
            Conserves(p) && (ChangeOf(p) == 0 || ChangeOf(p) >= minChange)
  {
    var fee := SendPlanIsChosen(listed, st, outputs, minChange);
    var p, q := SendPlan(listed, st, outputs, minChange), SendRequest(st, outputs);
    ChoiceCoversFee(Candidates(listed, st), q, p.notes, fee);
    hide SendPlan, Sum, Total, Candidates, Sound, ValidIds;
  }

  /**
   * Fee adequacy for the final shape: the fee is at least the conventional fee for the notes and
   * outputs the transaction ends up with, and exceeds it by at most one fee step plus the dust
   * that was suppressed.
   */
  lemma SendFeeIsAdequate(listed: seq<Note>, st: Settings, outputs: seq<uint64>, minChange: uint64)
    requires SendPlan(listed, st, outputs, minChange).Plan?
    ensures var p := SendPlan(listed, st, outputs, minChange);
            FinalFee(p, st) <= p.fee <= FinalFee(p, st) + 5_000 * Multiplier(st) + Max(minChange - 1, 0)
  {
    hide SendPlan, FinishSend, Sum, Total, Candidates, Sound, ValidIds, ValidOutputs, Choose, FeeFor, Multiplier;
    var fee := SendPlanIsChosen(listed, st, outputs, minChange);
    var p, q := SendPlan(listed, st, outputs, minChange), SendRequest(st, outputs);
    assert |outputs| <= 200 by {
      OutputsAreFew(outputs);
    }
    ChoiceCoversFee(Candidates(listed, st), q, p.notes, fee);
    ChosenFee(Candidates(listed, st), q, p.notes, fee);
    FinalShape(p, outputs, fee, minChange);
    RequestFeeInNumbers(st, outputs, |p.notes|, |outputs|);
    RequestFeeInNumbers(st, outputs, |p.notes|, |outputs| + 1);
    OneOutputMore(|p.notes|, |outputs|, st);
  }

  lemma OutputsAreFew(outputs: seq<uint64>)
    requires ValidOutputs(outputs)
    ensures |outputs| <= 200
  {
  }

  lemma RequestFeeInNumbers(st: Settings, outputs: seq<uint64>, spends: nat, outs: nat)
    requires Total(outputs) < TWO64
    requires spends <= 200 && outs <= 201
    ensures SendRequest(st, outputs).Fee(spends, outs) == FeeFor(spends, outs, st)
  {
    hide Total;
    PolicyFeeInNumbers(spends, outs, st);
  }

  lemma OneOutputMore(spends: nat, outputs: nat, st: Settings)
    requires spends <= 200 && outputs <= 200
    ensures FeeFor(spends, outputs, st) <= FeeFor(spends, outputs + 1, st)
              <= FeeFor(spends, outputs, st) + 5_000 * Multiplier(st)
  {
    hide FeePolicy.Total, RequiredFeeSend, FeeFor;
    PolicyFeeInNumbers(spends, outputs, st);
    PolicyFeeInNumbers(spends, outputs + 1, st);
    ChangeOutputCost(spends, outputs, st.Policy());
  }

  /** The selector's fee is one of two; without change it is the no-change fee only for exact choices. */
  lemma ChosenFee(notes: seq<Note>, q: Request, s: seq<Note>, fee: uint64)
    requires Sound(notes, q, Selected(s, fee))
    ensures || (fee == q.Fee(|s|, q.outputs) && Sum(s) == q.amount + fee)
            || fee == q.Fee(|s|, q.outputs + 1)
  {
  }

  /** The final fee is the chosen one, plus the remainder when that is suppressed. */
  lemma FinalShape(p: Result, outputs: seq<uint64>, fee: uint64, minChange: uint64)
    requires Total(outputs) < TWO64
    requires p.Plan? && p == FinishSend(p.notes, outputs, fee, minChange)
    requires Sum(p.notes) >= Total(outputs) + fee
    ensures var rest := Sum(p.notes) - Total(outputs) - fee;
            && p.outputs == outputs
            && (p.hasChange <==> rest > 0 && rest >= minChange)
            && p.fee == if p.hasChange then fee else fee + rest
    ensures !p.hasChange ==> Sum(p.notes) - Total(outputs) - fee <= Max(minChange - 1, 0)
  {
    hide Sum, Total, ValidIds;
  }

  /** Refusing for too many inputs is truthful: no choice within the signer's limit pays for itself. */
  lemma TooManyInputsIsTruthful(notes: seq<Note>, q: Request, c: seq<Note>)
    requires Choose(notes, q) == NotChosen(TooManyInputs)
    requires FromWallet(c, notes) && |c| <= 200
    ensures !Funds(q, c)
  {
    hide Select, Sum;
    SelectionIsMinimal(notes, q, c);
  }

  /** The planner refuses for too many inputs only when no choice within the signer's limit pays. */
  lemma SendTooManyInputsIsTruthful(listed: seq<Note>, st: Settings, outputs: seq<uint64>, minChange: uint64,
                                    c: seq<Note>)
    requires SendPlan(listed, st, outputs, minChange) == Refused(TooManyInputs)
    requires FromWallet(c, Candidates(listed, st)) && |c| <= 200
    ensures ValidOutputs(outputs) && !Funds(SendRequest(st, outputs), c)
  {
    hide Select, Sum, Candidates, Funds, ValidIds;
    TooManyIsChosen(listed, st, outputs, minChange);
    TooManyInputsIsTruthful(Candidates(listed, st), SendRequest(st, outputs), c);
  }

  /** That refusal comes from the selection alone. */
  lemma TooManyIsChosen(listed: seq<Note>, st: Settings, outputs: seq<uint64>, minChange: uint64)
    requires || (WellFormedSend(st) && ValidOutputs(outputs))
             || SendPlan(listed, st, outputs, minChange) == Refused(TooManyInputs)
    ensures ValidOutputs(outputs)
    ensures SendPlan(listed, st, outputs, minChange) == Refused(TooManyInputs) <==>
              Choose(Candidates(listed, st), SendRequest(st, outputs)) == NotChosen(TooManyInputs)
  {
    hide Select, Sum, Candidates, ValidIds;
    if Candidates(listed, st) == [] && ValidOutputs(outputs) {
      NothingIsInsufficient(SendRequest(st, outputs));
    }
  }

  lemma NothingIsInsufficient(q: Request)
    ensures Select([], q) == Insufficient
  {
  }

  /**
   * Exactly when a well-formed send is refused for too many inputs: no one or two notes pay
   * exactly, none of the first 200 largest-first prefixes pays, and a longer one does.
   */
  lemma SendTooManyInputsIff(listed: seq<Note>, st: Settings, outputs: seq<uint64>, minChange: uint64)
    requires WellFormedSend(st) && ValidOutputs(outputs)
    requires Sum(Candidates(listed, st)) < TWO64
    requires LargestNeed(Candidates(listed, st), SendRequest(st, outputs)) < TWO64
    ensures SendPlan(listed, st, outputs, minChange) == Refused(TooManyInputs) <==>
              PaysOnlyBeyond(Candidates(listed, st), SendRequest(st, outputs), 200)
  {
    hide Select, Sum, Candidates, ValidIds, LargestNeed, PaysOnlyBeyond;
    var notes, q := Candidates(listed, st), SendRequest(st, outputs);
    TooManyIsChosen(listed, st, outputs, minChange);
    OverflowNeedsLargeNumbers(notes, q);
    SelectsMoreThanIff(notes, q, 200);
  }

  /** Refusing for insufficient balance is truthful for every choice of candidates. */
  lemma InsufficientBalanceIsTruthful(listed: seq<Note>, st: Settings, outputs: seq<uint64>, minChange: uint64,
                                      c: seq<Note>)
    requires SendPlan(listed, st, outputs, minChange) == Refused(InsufficientBalance)
    requires FromWallet(c, Candidates(listed, st))
    ensures ValidOutputs(outputs) && !Funds(SendRequest(st, outputs), c)
  {
    hide Select, Sum, Candidates, Request.Need;
    var notes, q := Candidates(listed, st), SendRequest(st, outputs);
    SubsetSize(c, notes);
    if Choose(notes, q).Chosen? {
      SelectionIsSound(notes, q);
      var Chosen(s, fee) := Choose(notes, q);
      TotalsErrorsAreUnreachable(notes, q, s, fee, outputs, minChange);
    }
    InsufficientIsTruthful(notes, q, c);
  }

  /** The candidates are the listed notes that are large enough and not excluded, each as often as listed. */
  lemma CandidatesAreExact(listed: seq<Note>, st: Settings)
    ensures forall x :: multiset(Candidates(listed, st))[x] ==
                          if x.value >= st.minNote && NoteId(x.txid, x.index) !in IdSet(st.excluded)
                          then multiset(listed)[x] else 0
  {
    FilterKeeps(listed, AtLeast(st.minNote));
    FilterKeeps(Filter(listed, AtLeast(st.minNote)), NotExcluded(IdSet(st.excluded)));
  }

  lemma TwiceInSequence(notes: seq<Note>, i: nat, j: nat)
    requires i < j < |notes| && notes[i] == notes[j]
    ensures multiset(notes)[notes[i]] >= 2
  {
    assert notes == notes[..i] + [notes[i]] + notes[i + 1..j] + [notes[j]] + notes[j + 1..];
  }

  /** A choice among candidates with canonical distinct ids has canonical distinct ids. */
  lemma ChoiceHasValidIds(notes: seq<Note>, s: seq<Note>)
    requires multiset(s) <= multiset(notes) && ValidIds(PlanIds(notes))
    ensures ValidIds(PlanIds(s))
  {
    hide Accepted, NoteId;
    var ids, all := PlanIds(s), PlanIds(notes);
    forall i | 0 <= i < |s|
      ensures exists k :: 0 <= k < |notes| && notes[k] == s[i]
    {
      assert s[i] in multiset(s) && s[i] in multiset(notes);
    }
    forall i, j | 0 <= i < j < |s|
      ensures ids[i] != ids[j]
    {
      var k :| 0 <= k < |notes| && notes[k] == s[i];
      var m :| 0 <= m < |notes| && notes[m] == s[j];
      if s[i] == s[j] {
        TwiceInSequence(s, i, j);
        var a, b := TwoPositions(notes, s[i], s[i]);
      } else {
        assert k != m;
        assert all[k] != all[m];
      }
    }
    forall i | 0 <= i < |s|
      ensures Accepted(ids[i])
    {
      var k :| 0 <= k < |notes| && notes[k] == s[i];
      assert Accepted(all[k]);
    }
  }

  /**
   * Completeness of the planner: when the request is well formed, the candidates have canonical
   * distinct ids, everything fits 64 bits and some choice within the signer's limit pays with
   * change, then no more notes than that choice are selected, and they are planned. The one
   * exception is change that would be the 201st output.
   */
  lemma FundedSendIsPlanned(listed: seq<Note>, st: Settings, outputs: seq<uint64>, minChange: uint64, c: seq<Note>)
    returns (s: seq<Note>, fee: uint64)
    requires WellFormedSend(st) && ValidOutputs(outputs)
    requires ValidIds(PlanIds(Candidates(listed, st)))
    requires Sum(Candidates(listed, st)) < TWO64
    requires LargestNeed(Candidates(listed, st), SendRequest(st, outputs)) < TWO64
    requires FromWallet(c, Candidates(listed, st)) && |c| <= 200
    requires Funds(SendRequest(st, outputs), c)
    ensures Choose(Candidates(listed, st), SendRequest(st, outputs)) == Chosen(s, fee) && |s| <= |c|
    ensures var p, rest := SendPlan(listed, st, outputs, minChange), Sum(s) - Total(outputs) - fee;
            && rest >= 0
            && if |outputs| < 200 || rest == 0 || rest < minChange
               then p.Plan? && p.notes == s else p == Refused(BadRequest)
  {
    hide Select, Candidates, Sum, Total, LargestNeed, Funds, ValidIds, Sound, FromWallet;
    var notes, q := Candidates(listed, st), SendRequest(st, outputs);
    assert multiset(c) <= multiset(notes) && c != [] by {
      FromWalletMeans(c, notes);
    }
    SubsetSize(c, notes);
    OverflowNeedsLargeNumbers(notes, q);
    if Select(notes, q).Insufficient? {
      InsufficientIsTruthful(notes, q, c);
    }
    s, fee := Select(notes, q).notes, Select(notes, q).fee;
    if |c| < |s| {
      SelectionIsMinimal(notes, q, c);
    }
    SelectionIsSound(notes, q);
    assert multiset(s) <= multiset(notes) by {
      SoundIsSubset(notes, q, s, fee);
    }
    ChoiceHasValidIds(notes, s);
    ChoiceCoversFee(notes, q, s, fee);
    TotalsErrorsAreUnreachable(notes, q, s, fee, outputs, minChange);
    FinishOutcome(s, outputs, fee, minChange);
  }

  /** The only checks left for a sound choice are the ids and the output limit. */
  lemma FinishOutcome(s: seq<Note>, outputs: seq<uint64>, fee: uint64, minChange: uint64)
    requires Total(outputs) + fee <= Sum(s) < TWO64
    requires |s| <= 200 && |outputs| <= 200
    ensures var p, rest := FinishSend(s, outputs, fee, minChange), Sum(s) - Total(outputs) - fee;
            if ValidIds(PlanIds(s)) && (|outputs| < 200 || rest == 0 || rest < minChange)
            then p.Plan? && p.notes == s else p == Refused(BadRequest)
  {
    hide Sum, Total, ValidIds;
  }

  /** A malformed send is a bad request, whatever the wallet holds. */
  lemma MalformedSendIsRefused(listed: seq<Note>, st: Settings, outputs: seq<uint64>, minChange: uint64)
    requires !WellFormedSend(st) || !ValidOutputs(outputs)
    ensures SendPlan(listed, st, outputs, minChange) == Refused(BadRequest)
  {
    hide Candidates, Choose, FinishSend, ValidIds;
  }

  /**
   * Every outcome of a well-formed send, decided before the call: an overflow error, nothing that
   * is tested pays, only more than 200 notes do, or notes are selected; those are planned unless
   * one has no canonical id or their change would be the 201st output.
   */
  lemma SendOutcome(listed: seq<Note>, st: Settings, outputs: seq<uint64>, minChange: uint64)
    requires WellFormedSend(st) && ValidOutputs(outputs)
    ensures var q, notes := SendRequest(st, outputs), Candidates(listed, st);
            var p := SendPlan(listed, st, outputs, minChange);
            if Overflows(notes, q) then
              p == Refused(Other)
            else if !LargestPay(notes, q) && !PaysExactly(notes, q) then
              p == Refused(InsufficientBalance)
            else if PaysOnlyBeyond(notes, q, 200) then
              p == Refused(TooManyInputs)
            else
              && Select(notes, q).Selected?
              && var Selected(s, fee) := Select(notes, q);
                 var rest := Sum(s) - Total(outputs) - fee;
                 && rest >= 0
                 && if ValidIds(PlanIds(s)) && (|outputs| < 200 || rest == 0 || rest < minChange)
                    then p.Plan? && p.notes == s else p == Refused(BadRequest)
  {
    hide Select, Candidates, Sum, Total, ValidIds, Sound, LargestPay, PaysExactly, PaysOnlyBeyond, Overflows;
    var notes, q := Candidates(listed, st), SendRequest(st, outputs);
    SelectionOverflowsIff(notes, q);
    NothingIsInsufficient(q);
    if !Overflows(notes, q) {
      SelectionDecided(notes, q);
      SelectsMoreThanIff(notes, q, 200);
      if Select(notes, q).Selected? && |Select(notes, q).notes| <= 200 {
        var Selected(s, fee) := Select(notes, q);
        SelectionIsSound(notes, q);
        ChoiceCoversFee(notes, q, s, fee);
        SoundSumFits(notes, q, s, fee);
        FinishOutcome(s, outputs, fee, minChange);
      }
    }
  }

  lemma SelectionDecided(notes: seq<Note>, q: Request)
    requires !Select(notes, q).Overflow?
    ensures Select(notes, q).Selected? <==> LargestPay(notes, q) || PaysExactly(notes, q)
  {
    hide Select, Sum, SortNotes, LargestPay;
    SelectionSucceedsIff(notes, q);
    SomeChoicePaysIff(notes, q);
  }

  lemma FromWalletMeans(c: seq<Note>, notes: seq<Note>)
    requires FromWallet(c, notes)
    ensures multiset(c) <= multiset(notes) && c != []
  {
  }

  lemma SoundIsSubset(notes: seq<Note>, q: Request, s: seq<Note>, fee: uint64)
    requires Sound(notes, q, Selected(s, fee))
    ensures multiset(s) <= multiset(notes)
  {
  }

  // ----- sweeps and consolidations -----

  /** One output with everything beyond the fee: positive, no change, and exactly the conventional fee. */
  ghost predicate PaysAll(p: Result, st: Settings)
    requires p.Plan?
  {
    && |p.outputs| == 1 && p.outputs[0] > 0 && !p.hasChange
    && ChangeOf(p) == 0
    && p.fee == FinalFee(p, st)
    && WithinSignerLimits(p)
  }

  lemma PayAllPaysAll(notes: seq<Note>, fee: uint64, st: Settings)
    requires PayAll(notes, fee).Plan?
    requires fee == st.Policy().Total(RequiredFeeSend(|notes|, 1))
    ensures PayAll(notes, fee).notes == notes
    ensures PaysAll(PayAll(notes, fee), st)
  {
    hide Sum, ValidIds, FeePolicy.Total, RequiredFeeSend, FeeFor, Settings.Policy;
    PolicyFeeInNumbers(|notes|, 1, st);
    var p := PayAll(notes, fee);
    assert p.outputs[..0] == [];
    assert Total(p.outputs) == p.outputs[0];
  }

  lemma SweepConservesValue(listed: seq<Note>, st: Settings)
    requires SweepPlan(listed, st).Plan?
    ensures PaysAll(SweepPlan(listed, st), st)
    ensures SweepPlan(listed, st).notes == Candidates(listed, st)
  {
    hide Sum, ValidIds, FeePolicy.Total, RequiredFeeSend, FeeFor, Candidates, PayAll, PaysAll;
    var notes := Candidates(listed, st);
    PayAllPaysAll(notes, st.Policy().Total(RequiredFeeSend(|notes|, 1)), st);
  }

  lemma CostIsPolicyFee(k: nat, policy: FeePolicy)
    requires 2 <= k <= 200
    ensures C.CostOf(k, policy) == policy.Total(RequiredFeeSend(k, 1))
  {
    FeeInNumbers(k, 1, policy);
  }

  lemma ConsolidationConservesValue(listed: seq<Note>, st: Settings, maxSpends: int)
    requires ConsolidatePlan(listed, st, maxSpends).Plan?
    ensures PaysAll(ConsolidatePlan(listed, st, maxSpends), st)
    ensures multiset(ConsolidatePlan(listed, st, maxSpends).notes) <= multiset(Candidates(listed, st))
    ensures var r := C.Consolidate(Candidates(listed, st), maxSpends, FeePolicy(Multiplier(st), st.add));
            r.Consolidated? && ConsolidatePlan(listed, st, maxSpends).notes == r.notes
  {
    hide Sum, ValidIds, FeePolicy.Total, RequiredFeeSend, FeeFor, Candidates, PayAll, PaysAll, C.Consolidate;
    var notes := Candidates(listed, st);
    C.ConsolidationIsSound(notes, maxSpends, st.Policy());
    var r := C.Consolidate(notes, maxSpends, st.Policy());
    CostIsPolicyFee(|r.notes|, st.Policy());
    PayAllPaysAll(r.notes, r.fee, st);
  }

  /** Every outcome of a sweep, in the numbers of the request. */
  lemma SweepOutcome(listed: seq<Note>, st: Settings)
    ensures var p, notes := SweepPlan(listed, st), Candidates(listed, st);
            var fee, total := FeeFor(|notes|, 1, st), Sum(notes);
            if !WellFormed(st) then p == Refused(BadRequest)
            else if notes == [] then p == Refused(InsufficientBalance)
            else if |notes| > 200 then p == Refused(TooManyInputs)
            else if total >= TWO64 || fee >= TWO64 then p == Refused(Other)
            else if total <= fee then p == Refused(InsufficientBalance)
            else if !ValidIds(PlanIds(notes)) then p == Refused(BadRequest)
            else p == Plan(notes, [total - fee], fee, false)
  {
    hide Candidates, Sum, ValidIds, FeePolicy.Total, RequiredFeeSend, FeeFor, Settings.Policy, PayAll,
         WellFormed, Header.Accepted;
    var notes := Candidates(listed, st);
    ChecksAreWellFormedness(st);
    if |notes| <= 200 {
      PolicyFeeInNumbers(|notes|, 1, st);
      var fee := st.Policy().Total(RequiredFeeSend(|notes|, 1));
      if fee < TWO64 {
        PayAllOutcome(notes, fee);
      }
    }
  }

  lemma ChecksAreWellFormedness(st: Settings)
    ensures WellFormed(st) <==> st.header.Accepted() && ValidIds(st.excluded)
  {
    hide ValidIds;
  }

  lemma PayAllOutcome(notes: seq<Note>, fee: uint64)
    requires |notes| <= 200
    ensures var r, total := PayAll(notes, fee), Sum(notes);
            if total >= TWO64 then r == Refused(Other)
            else if total <= fee then r == Refused(InsufficientBalance)
            else if !ValidIds(PlanIds(notes)) then r == Refused(BadRequest)
            else r == Plan(notes, [total - fee], fee, false)
  {
    hide Sum, ValidIds;
  }

  /**
   * Every outcome of a consolidation, decided before the call: notes are selected exactly when
   * the numbers fit and some choice of a legal number of candidates is worth more than its own
   * fee, and they are planned unless one has no canonical id.
   */
  lemma ConsolidationPlanOutcome(listed: seq<Note>, st: Settings, maxSpends: int)
    ensures var p, notes, most := ConsolidatePlan(listed, st, maxSpends), Candidates(listed, st), C.Allowed(maxSpends);
            var k, policy := if most < |notes| then most else |notes|, FeePolicy(Multiplier(st), st.add);
            if !WellFormed(st) || most < 2 || most > 200 || |notes| < 2 then p == Refused(BadRequest)
            else if Sum(notes) >= TWO64 || C.CostOf(k, policy) >= TWO64 then p == Refused(Other)
            else if C.NothingToConsolidate(notes, maxSpends, policy) then p == Refused(InsufficientBalance)
            else
              var r := C.Consolidate(notes, maxSpends, policy);
              && r.Consolidated?
              && if ValidIds(PlanIds(r.notes)) then p.Plan? && p.notes == r.notes else p == Refused(BadRequest)
  {
    hide Candidates, Sum, ValidIds, C.Consolidate, C.CostOf, C.NothingToConsolidate, PayAll;
    var notes, policy := Candidates(listed, st), FeePolicy(Multiplier(st), st.add);
    C.ConsolidationOutcome(notes, maxSpends, policy);
    var r := C.Consolidate(notes, maxSpends, policy);
    if r.Consolidated? {
      C.ConsolidationIsSound(notes, maxSpends, policy);
      PayAllOutcome(r.notes, r.fee);
    }
  }

  /** After a consolidation selects, the later sum-overflow and insufficient-funds errors are unreachable. */
  lemma ConsolidationTotalsAreFine(listed: seq<Note>, st: Settings, maxSpends: int)
    requires C.Consolidate(Candidates(listed, st), maxSpends, st.Policy()).Consolidated?
    ensures var r := C.Consolidate(Candidates(listed, st), maxSpends, st.Policy());
            PayAll(r.notes, r.fee) != Refused(Other) && PayAll(r.notes, r.fee) != Refused(InsufficientBalance)
  {
    hide Candidates, C.Consolidate, ValidIds, Sum;
    C.ConsolidationIsSound(Candidates(listed, st), maxSpends, st.Policy());
  }
}
