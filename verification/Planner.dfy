/**
 * The arithmetic and the checks of the three planners: which notes are spent, what the fee is,
 * and whether the transaction has change. Reading the node or the scanner is a parameter: the
 * wallet's notes as listed.
 */
module Planner {
  import opened Machine
  import opened Notes
  import opened Fees
  import opened Selection
  import opened NoteIds
  import C = Consolidation

  const MAX_ORCHARD_OUTPUTS: int := 200
  const MAX_ORCHARD_SPEND_NOTES: int := C.MAX_ORCHARD_SPEND_NOTES
  const DEFAULT_FEE_MULTIPLIER: uint64 := 20

  datatype Error = InsufficientBalance | TooManyInputs | BadRequest | Other

  /** A plan: the notes it spends, the amounts it pays and its fee; any rest is the change output. */
  datatype Result = Plan(notes: seq<Note>, outputs: seq<uint64>, fee: uint64, hasChange: bool) | Refused(error: Error)

  const DEFAULT_EXPIRY_OFFSET: uint32 := 40
  const MIN_EXPIRY_OFFSET: uint32 := 4
  const ACCOUNT_LIMIT: int := 0x8000_0000

  /** The fields that are checked but not computed with. */
  datatype Header = Header(rpcUrl: string, walletId: string, account: uint32, kindSupported: bool,
                           toAddresses: seq<string>, changeAddress: string, expiryOffset: uint32)
  {
    function EffectiveOffset(): uint32 {
      if expiryOffset == 0 then DEFAULT_EXPIRY_OFFSET else expiryOffset
    }

    /** The checks the three planners share. */
    predicate Accepted() {
      && rpcUrl != "" && walletId != "" && account < ACCOUNT_LIMIT
      && EffectiveOffset() >= MIN_EXPIRY_OFFSET
      && (forall a :: a in toAddresses ==> a != "")
    }

    /** A send names its kind and its change address; the other planners fix the one and default the other. */
    predicate AcceptedForSend() {
      Accepted() && kindSupported && changeAddress != ""
    }
  }

  /** What every planner takes besides its outputs. */
  datatype Settings = Settings(header: Header, excluded: seq<string>, minNote: uint64,
                               multiplier: uint64, add: uint64)
  {
    function Policy(): FeePolicy {
      FeePolicy(if multiplier == 0 then DEFAULT_FEE_MULTIPLIER else multiplier, add)
    }
  }

  function Total(amounts: seq<uint64>): nat {
    if amounts == [] then 0 else Total(amounts[..|amounts| - 1]) + amounts[|amounts| - 1]
  }

  function PlanIds(notes: seq<Note>): (ids: seq<string>)
    ensures |ids| == |notes| && forall i :: 0 <= i < |notes| ==> ids[i] == NoteId(notes[i].txid, notes[i].index)
  {
    seq(|notes|, i requires 0 <= i < |notes| => NoteId(notes[i].txid, notes[i].index))
  }

  /** The listed notes that may be selected. */
  function Candidates(listed: seq<Note>, st: Settings): seq<Note> {
    Filter(Filter(listed, AtLeast(st.minNote)), NotExcluded(IdSet(st.excluded)))
  }

  /** The signer's limits and the id contract, applied to every plan. */
  ghost function SignerCompatible(notes: seq<Note>, outputs: seq<uint64>, fee: uint64, hasChange: bool): Result {
    if |notes| > MAX_ORCHARD_SPEND_NOTES then Refused(TooManyInputs)
    else if !ValidIds(PlanIds(notes)) then Refused(BadRequest)
    else if |outputs| + (if hasChange then 1 else 0) > MAX_ORCHARD_OUTPUTS then Refused(BadRequest)
    else Plan(notes, outputs, fee, hasChange)
  }

  datatype Change = Change(required: bool) | BadTotals

  function ChangeRequired(totalIn: uint64, totalOut: uint64, fee: uint64): (r: Change)
    ensures r == if totalIn < totalOut + fee then BadTotals else Change(totalIn != totalOut + fee)
  {
    if totalIn < totalOut then
      BadTotals
    else
      var remaining := totalIn - totalOut;
      if remaining < fee then BadTotals else Change(remaining > fee)
  }

  // ----- send, send-many and rebalance -----

  datatype Choice = Chosen(notes: seq<Note>, fee: uint64) | NotChosen(error: Error)

  /** Maps the selector's outcomes to error codes and applies the signer's input limit. */
  function Choose(notes: seq<Note>, q: Request): Choice {
    match Select(notes, q)
    case Insufficient => NotChosen(InsufficientBalance)
    case Overflow => NotChosen(Other)
    case Selected(s, fee) => if |s| > MAX_ORCHARD_SPEND_NOTES then NotChosen(TooManyInputs) else Chosen(s, fee)
  }

  /** From a selection to a plan: totals, dust, change and the signer's limits. */
  ghost function FinishSend(notes: seq<Note>, outputs: seq<uint64>, fee: uint64, minChange: uint64): Result
    requires Total(outputs) < TWO64
  {
    if Sum(notes) >= TWO64 then
      Refused(Other)
    else
      match SuppressDustChange(Sum(notes), Total(outputs), fee, minChange)
      case InvalidTotals => Refused(Other)
      case FeeOverflow => Refused(Other)
      case Suppressed(finalFee, _) =>
        match ChangeRequired(Sum(notes), Total(outputs), finalFee)
        case BadTotals => Refused(Other)
        case Change(hasChange) => SignerCompatible(notes, outputs, finalFee, hasChange)
  }

  ghost predicate ValidOutputs(outputs: seq<uint64>) {
    && 0 < |outputs| <= 200
    && (forall i :: 0 <= i < |outputs| ==> outputs[i] > 0)
    && Total(outputs) < TWO64
  }

  ghost function SendPlan(listed: seq<Note>, st: Settings, outputs: seq<uint64>, minChange: uint64): Result {
    if !st.header.AcceptedForSend() || !ValidIds(st.excluded) || !ValidOutputs(outputs) then
      Refused(BadRequest)
    else if Candidates(listed, st) == [] then
      Refused(InsufficientBalance)
    else
      match Choose(Candidates(listed, st), Request(Total(outputs), |outputs|, st.Policy()))
      case NotChosen(error) => Refused(error)
      case Chosen(notes, fee) => FinishSend(notes, outputs, fee, minChange)
  }

  // ----- sweep and consolidate -----

  /** Everything the notes are worth beyond the fee goes to one output. */
  ghost function PayAll(notes: seq<Note>, fee: uint64): Result {
    if Sum(notes) >= TWO64 then Refused(Other)
    else if Sum(notes) <= fee then Refused(InsufficientBalance)
    else SignerCompatible(notes, [Sum(notes) - fee], fee, false)
  }

  ghost function SweepPlan(listed: seq<Note>, st: Settings): Result {
    var notes := Candidates(listed, st);
    if !st.header.Accepted() || !ValidIds(st.excluded) then
      Refused(BadRequest)
    else if notes == [] then
      Refused(InsufficientBalance)
    else if |notes| > MAX_ORCHARD_SPEND_NOTES then
      Refused(TooManyInputs)
    else if Sum(notes) >= TWO64 then
      Refused(Other)
    else
      match st.Policy().Apply(RequiredFeeSend(|notes|, 1))
      case Wrapped => Refused(Other)
      case Fits(fee) => PayAll(notes, fee)
  }

  ghost function ConsolidatePlan(listed: seq<Note>, st: Settings, maxSpends: int): Result {
    var notes := Candidates(listed, st);
    if !st.header.Accepted() || !ValidIds(st.excluded) || C.SpendLimit(maxSpends, |notes|).None? || |notes| < 2 then
      Refused(BadRequest)
    else
      match C.Consolidate(notes, maxSpends, st.Policy())
      case InvalidRequest => Refused(BadRequest)
      case NotEnough => Refused(InsufficientBalance)
      case Overflow => Refused(Other)
      case Consolidated(selected, fee) => PayAll(selected, fee)
  }

  // ----- the planners' loops -----

  lemma {:induction false} TotalTake(amounts: seq<uint64>, k: nat)
    requires k <= |amounts|
    ensures Total(amounts[..k]) <= Total(amounts)
    ensures k < |amounts| ==> Total(amounts[..k + 1]) == Total(amounts[..k]) + amounts[k]
  {
    if k < |amounts| {
      assert amounts[..k + 1][..k] == amounts[..k];
      if k + 1 == |amounts| {
        assert amounts[..k + 1] == amounts;
      } else {
        var front := amounts[..|amounts| - 1];
        TotalTake(front, k);
        assert front[..k] == amounts[..k];
      }
    } else {
      assert amounts[..k] == amounts;
    }
  }

  /** Adds up the requested amounts; nothing if one is zero or the sum does not fit. */
  method SumOutputs(outputs: seq<uint64>) returns (r: Option<uint64>)
    ensures r.Some? <==> (forall i :: 0 <= i < |outputs| ==> outputs[i] > 0) && Total(outputs) < TWO64
    ensures r.Some? ==> r.value == Total(outputs)
  {
    var totalOut: uint64 := 0;
    for i := 0 to |outputs|
      invariant forall k :: 0 <= k < i ==> outputs[k] > 0
      invariant totalOut == Total(outputs[..i])
    {
      TotalTake(outputs, i);
      TotalTake(outputs, i + 1);
      if outputs[i] == 0 {
        return None;
      }
      var sum := AddUint64(totalOut, outputs[i]);
      if sum == Wrapped {
        return None;
      }
      totalOut := sum.value;
    }
    assert outputs[..|outputs|] == outputs;
    return Some(totalOut);
  }

  method SumNotes(notes: seq<Note>) returns (r: Checked)
    ensures r == if Sum(notes) < TWO64 then Fits(Sum(notes)) else Wrapped
  {
    var totalIn: uint64 := 0;
    for i := 0 to |notes|
      invariant totalIn == Sum(notes[..i])
    {
      SumTake(notes, i);
      SumSplit(notes, i + 1);
      var sum := AddUint64(totalIn, notes[i].value);
      if sum == Wrapped {
        return Wrapped;
      }
      totalIn := sum.value;
    }
    assert notes[..|notes|] == notes;
    return Fits(totalIn);
  }

  method CheckSigner(notes: seq<Note>, outputs: seq<uint64>, fee: uint64, hasChange: bool) returns (r: Result)
    ensures r == SignerCompatible(notes, outputs, fee, hasChange)
  {
    if |notes| > MAX_ORCHARD_SPEND_NOTES {
      return Refused(TooManyInputs);
    }
    var ids := ValidateExcludedNoteIds(PlanIds(notes));
    if ids.None? {
      return Refused(BadRequest);
    }
    var outputCount := |outputs|;
    if hasChange {
      outputCount := outputCount + 1;
    }
    if outputCount > MAX_ORCHARD_OUTPUTS {
      return Refused(BadRequest);
    }
    return Plan(notes, outputs, fee, hasChange);
  }

  method ListCandidates(listed: seq<Note>, st: Settings) returns (notes: seq<Note>)
    ensures notes == Candidates(listed, st)
  {
    notes := FilterNotesMinValue(listed, st.minNote);
    notes := FilterExcludedUnspentNotes(notes, IdSet(st.excluded));
  }

  method SelectNotesForPlan(notes: seq<Note>, amount: uint64, outputCount: int, feePolicy: FeePolicy)
    returns (r: Choice)
    ensures r == Choose(notes, Request(amount, outputCount, feePolicy))
  {
    hide Select;
    var selection := SelectNotesWithFeePolicy(notes, amount, outputCount, feePolicy);
    match selection {
      case Insufficient => return NotChosen(InsufficientBalance);
      case Overflow => return NotChosen(Other);
      case Selected(selected, fee) =>
        if |selected| > MAX_ORCHARD_SPEND_NOTES {
          return NotChosen(TooManyInputs);
        }
        return Chosen(selected, fee);
    }
  }

  method PlanSend(listed: seq<Note>, st: Settings, outputs: seq<uint64>, minChange: uint64) returns (r: Result)
    ensures r == SendPlan(listed, st, outputs, minChange)
  {
    hide Choose, Candidates, ValidIds;
    var excluded := ValidateExcludedNoteIds(st.excluded);
    if !st.header.AcceptedForSend() || excluded.None? || outputs == [] || |outputs| > MAX_ORCHARD_OUTPUTS {
      return Refused(BadRequest);
    }
    var totalOut := SumOutputs(outputs);
    if totalOut.None? {
      return Refused(BadRequest);
    }
    var notes := ListCandidates(listed, st);
    if notes == [] {
      return Refused(InsufficientBalance);
    }
    var choice := SelectNotesForPlan(notes, totalOut.value, |outputs|, st.Policy());
    match choice {
      case NotChosen(error) => return Refused(error);
      case Chosen(selected, fee) => r := FinishSendPlan(selected, outputs, totalOut.value, fee, minChange);
    }
  }

  method FinishSendPlan(selected: seq<Note>, outputs: seq<uint64>, totalOut: uint64, fee: uint64, minChange: uint64)
    returns (r: Result)
    requires totalOut == Total(outputs)
    ensures r == FinishSend(selected, outputs, fee, minChange)
  {
    hide Sum, Total, SignerCompatible;
    var totalIn := SumNotes(selected);
    if totalIn == Wrapped {
      return Refused(Other);
    }
    var suppressed := SuppressDustChange(totalIn.value, totalOut, fee, minChange);
    if !suppressed.Suppressed? {
      return Refused(Other);
    }
    var change := ChangeRequired(totalIn.value, totalOut, suppressed.fee);
    if change == BadTotals {
      return Refused(Other);
    }
    r := CheckSigner(selected, outputs, suppressed.fee, change.required);
  }

  method FinishPayAll(notes: seq<Note>, fee: uint64) returns (r: Result)
    ensures r == PayAll(notes, fee)
  {
    var totalIn := SumNotes(notes);
    if totalIn == Wrapped {
      return Refused(Other);
    }
    if totalIn.value <= fee {
      return Refused(InsufficientBalance);
    }
    r := CheckSigner(notes, [totalIn.value - fee], fee, false);
  }

  method PlanSweep(listed: seq<Note>, st: Settings) returns (r: Result)
    ensures r == SweepPlan(listed, st)
  {
    hide Candidates, ValidIds, Sum;
    var excluded := ValidateExcludedNoteIds(st.excluded);
    if !st.header.Accepted() || excluded.None? {
      return Refused(BadRequest);
    }
    var notes := ListCandidates(listed, st);
    if notes == [] {
      return Refused(InsufficientBalance);
    }
    if |notes| > MAX_ORCHARD_SPEND_NOTES {
      return Refused(TooManyInputs);
    }
    var totalIn := SumNotes(notes);
    if totalIn == Wrapped {
      return Refused(Other);
    }
    var fee := st.Policy().Apply(RequiredFeeSend(|notes|, 1));
    if fee == Wrapped {
      return Refused(Other);
    }
    r := FinishPayAll(notes, fee.value);
  }

  method PlanConsolidate(listed: seq<Note>, st: Settings, maxSpends: int) returns (r: Result)
    ensures r == ConsolidatePlan(listed, st, maxSpends)
  {
    hide Candidates, ValidIds, C.Consolidate;
    var excluded := ValidateExcludedNoteIds(st.excluded);
    var spends := if maxSpends == 0 then C.DEFAULT_MAX_SPENDS else maxSpends;
    if !st.header.Accepted() || excluded.None? || spends < 2 || spends > MAX_ORCHARD_SPEND_NOTES {
      return Refused(BadRequest);
    }
    var notes := ListCandidates(listed, st);
    if |notes| < 2 {
      return Refused(BadRequest);
    }
    var selection := C.SelectNotesForConsolidation(notes, maxSpends, st.Policy());
    match selection {
      case InvalidRequest => return Refused(BadRequest);
      case NotEnough => return Refused(InsufficientBalance);
      case Overflow => return Refused(Other);
      case Consolidated(selected, fee) => r := FinishPayAll(selected, fee);
    }
  }
}
