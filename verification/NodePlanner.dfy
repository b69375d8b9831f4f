/**
 * A node-backed planner from end to end, in every mode: index the blocks read, select and
 * compute, witness the selected notes, set the expiry height; and what a returned plan means on
 * the anchor chain when the blocks came from a run of the planning protocol.
 */
module NodePlanner {
  import opened Machine
  import opened Notes
  import opened Fees
  import opened ChainIndex
  import opened NodePlan
  import opened Planner
  import R = Reservations
  import A = AnchorProtocol
  import W = Witness

  datatype Outcome =
    | Complete(plan: Result, anchor: W.Digest, notes: seq<SpendNote>, expiry: uint32)
    | Incomplete

  /** Every stage before the closing anchor checks succeeds. */
  ghost predicate CanComplete(s: W.Scheme, blocks: seq<Block>, tip: uint32,
                              listed: seq<Note>, st: Settings, job: R.Job)
  {
    && BuildIndex(blocks).Some? && BuildIndex(blocks).value.cmxs != []
    && R.MakePlan(listed, st, job).Plan?
    && var ix, selected := BuildIndex(blocks).value, R.MakePlan(listed, st, job).notes;
       && AllIndexed(ix, selected) && W.ValidRequest(s, ix.cmxs, Positions(ix, selected))
       && tip + 1 + Offset(st) < TWO32
  }

  /** The expiry offset the caller asked for. */
  function Offset(st: Settings): uint32 {
    if st.header.expiryOffset == 0 then 40 else st.header.expiryOffset
  }

  method MakePlan(listed: seq<Note>, st: Settings, job: R.Job) returns (r: Result)
    ensures r == R.MakePlan(listed, st, job)
  {
    match job {
      case Send(outputs, minChange) => r := PlanSend(listed, st, outputs, minChange);
      case Sweep => r := PlanSweep(listed, st);
      case Consolidate(maxSpends) => r := PlanConsolidate(listed, st, maxSpends);
    }
  }

  /** A plan comes out exactly when every stage succeeds, and carries what each stage promises. */
  method PlanFromNode(s: W.Scheme, blocks: seq<Block>, tip: uint32, listed: seq<Note>, st: Settings, job: R.Job)
    returns (r: Outcome)
    ensures r.Complete? <==> CanComplete(s, blocks, tip, listed, st, job)
    ensures r.Complete? ==>
              && r.plan == R.MakePlan(listed, st, job)
              && IsAssembled(s, BuildIndex(blocks).value, r.plan.notes, r.anchor, r.notes)
              && r.expiry == tip + 1 + Offset(st)
  {
    hide BuildIndex, R.MakePlan, IsAssembled, W.ValidRequest, AllIndexed;
    var orchard := BuildOrchardIndex(blocks);
    if orchard.None? || orchard.value.cmxs == [] {
      return Incomplete;
    }
    var plan := MakePlan(listed, st, job);
    if plan.Refused? {
      return Incomplete;
    }
    var assembled := AssembleNotes(s, orchard.value, plan.notes);
    if assembled.Failed? {
      return Incomplete;
    }
    var expiry := ExpiryHeightFromTip(tip, st.header.EffectiveOffset());
    if expiry.None? {
      return Incomplete;
    }
    return Complete(plan, assembled.anchor, assembled.notes, expiry.value);
  }

  /**
   * The pieces together: when a node-backed run returns and its reads met the anchor chain, a
   * plan made from the blocks it read describes actions of the anchor chain at their positions,
   * and every path opens the action's commitment to the root over that chain's commitments.
   */
  lemma PlanOpensOnAnchorChain(w: A.World, c: A.Config, run: seq<A.State>, n: nat, s: W.Scheme,
                               selected: seq<Note>, anchor: W.Digest, notes: seq<SpendNote>)
    requires A.CollisionFree(w) && A.IsRun(w, c, run) && c.mode.NodeBacked?
    requires n < |run| && run[n].phase.Returned?
    requires var session := run[n].phase.s;
             && session.captured < |run|
             && 0 <= session.info.height < |run[session.captured].node.chain|
             && A.ReadsHitAnchor(run, session)
             && A.ReadAll(session)
             && |Entries(Txs(A.AnchorChain(run, session)))| <= TWO32
             && var built := BuildIndex(A.BlocksRead(session, session.info.height + 1));
                built.Some? && IsAssembled(s, built.value, selected, anchor, notes)
    ensures |notes| == |selected|
    ensures forall i :: 0 <= i < |selected| ==>
              OpensOnChain(s, A.AnchorChain(run, run[n].phase.s), anchor, selected[i], notes[i])
  {
    hide BuildIndex, IsAssembled, OpensOnChain, A.IsRun, A.CollisionFree, A.ReadsHitAnchor, Entries, Txs;
    A.SnapshotIffReadsHitAnchor(w, c, run, n);
    AssembledOpensOnChain(s, A.AnchorChain(run, run[n].phase.s), selected, anchor, notes);
  }
}
