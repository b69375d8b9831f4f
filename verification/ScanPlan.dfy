/**
 * The notes of a scanner-backed plan: the action comes from the node, but position and path are
 * the scanner's, and the planner checks only their shape.
 */
module ScanPlan {
  import opened Machine
  import opened ChainIndex
  import opened NodePlan
  import opened ScanNotes
  import A = AnchorProtocol
  import W = Witness

  datatype ScanPath = ScanPath(position: uint32, authPath: seq<W.Digest>)

  /** The scanner's reply to the witness request; no root stands for an empty one. */
  datatype ScanWitness = ScanWitness(ok: bool, anchorHeight: int64, root: Option<W.Digest>, paths: seq<ScanPath>)

  /** The path the reply names last for a position. */
  function LastPath(paths: seq<ScanPath>, position: uint32): Option<seq<W.Digest>> {
    if paths == [] then
      None
    else
      var last := paths[|paths| - 1];
      if last.position == position then Some(last.authPath) else LastPath(paths[..|paths| - 1], position)
  }

  /** When a position is named more than once the last entry counts. */
  lemma {:induction false} LastPathIff(paths: seq<ScanPath>, position: uint32, path: seq<W.Digest>)
    ensures LastPath(paths, position) == Some(path) <==>
              exists i :: 0 <= i < |paths| && paths[i] == ScanPath(position, path)
                          && forall j :: i < j < |paths| ==> paths[j].position != position
  {
    if paths != [] {
      var front, last := paths[..|paths| - 1], |paths| - 1;
      assert forall i :: 0 <= i < last ==> front[i] == paths[i];
      if paths[last].position == position {
        assert paths[last] == ScanPath(position, paths[last].authPath);
      } else {
        LastPathIff(front, position, path);
        if LastPath(front, position) == Some(path) {
          var i :| 0 <= i < |front| && front[i] == ScanPath(position, path)
                   && forall j :: i < j < |front| ==> front[j].position != position;
          assert paths[i] == ScanPath(position, path);
        }
      }
    }
  }

  /** All the planner asks of the reply. */
  ghost predicate WitnessAccepted(metas: seq<Spendable>, height: uint32, wit: ScanWitness) {
    && wit.ok && wit.anchorHeight == height && wit.root.Some? && |wit.paths| == |metas|
    && forall i :: 0 <= i < |metas| ==>
         var path := LastPath(wit.paths, metas[i].position); path.Some? && |path.value| == W.DEPTH
  }

  method PathsByPosition(paths: seq<ScanPath>) returns (m: map<uint32, seq<W.Digest>>)
    ensures forall p: uint32 :: p in m <==> LastPath(paths, p).Some?
    ensures forall p: uint32 :: p in m ==> LastPath(paths, p) == Some(m[p])
  {
    m := map[];
    for i := 0 to |paths|
      invariant forall p: uint32 :: p in m <==> LastPath(paths[..i], p).Some?
      invariant forall p: uint32 :: p in m ==> LastPath(paths[..i], p) == Some(m[p])
    {
      assert paths[..i + 1][..i] == paths[..i];
      m := m[paths[i].position := paths[i].authPath];
    }
    assert paths[..|paths|] == paths;
  }

  /** A plan comes out exactly when the reply has the right shape, and repeats what was looked up and replied. */
  method AssembleScanNotes(metas: seq<Spendable>, actions: seq<Action>, height: uint32, wit: ScanWitness)
    returns (r: Assembled)
    requires |actions| == |metas|
    ensures r.Assembled? <==> WitnessAccepted(metas, height, wit)
    ensures r.Assembled? ==>
              && r.anchor == wit.root.value && |r.notes| == |metas|
              && forall i :: 0 <= i < |metas| ==>
                   r.notes[i] == SpendNote(metas[i].Id(), actions[i], metas[i].position,
                                           LastPath(wit.paths, metas[i].position).value)
  {
    if !wit.ok || wit.anchorHeight != height || wit.root.None? || |wit.paths| != |metas| {
      return Failed;
    }
    var pathByPos := PathsByPosition(wit.paths);
    var planNotes: seq<SpendNote> := [];
    for i := 0 to |metas|
      invariant |planNotes| == i
      invariant forall k :: 0 <= k < i ==>
                  var path := LastPath(wit.paths, metas[k].position);
                  && path.Some? && |path.value| == W.DEPTH
                  && planNotes[k] == SpendNote(metas[k].Id(), actions[k], metas[k].position, path.value)
    {
      var position := metas[i].position;
      if position !in pathByPos || |pathByPos[position]| != W.DEPTH {
        return Failed;
      }
      planNotes := planNotes + [SpendNote(metas[i].Id(), actions[i], position, pathByPos[position])];
    }
    return Assembled(wit.root.value, planNotes);
  }

  /** From the looked-up commitment the plan's path recomputes the plan's anchor. */
  predicate NoteOpens(s: W.Scheme, anchor: W.Digest, out: SpendNote) {
    && s.decode(out.action.cmx).Some?
    && s.Open(s.decode(out.action.cmx).value, 0, out.position, out.path) == anchor
  }

  /**
   * Nothing ties the scanner's reply to the commitment: whatever the tree, the note, its action
   * and the height, some accepted reply gives a plan note whose path does not open.
   */
  lemma ReplyIsNotTiedToCommitment(s: W.Scheme, meta: Spendable, action: Action, height: uint32)
    returns (wit: ScanWitness, path: seq<W.Digest>)
    ensures WitnessAccepted([meta], height, wit) && LastPath(wit.paths, meta.position) == Some(path)
    ensures !NoteOpens(s, wit.root.value, SpendNote(meta.Id(), action, meta.position, path))
  {
    path := seq(W.DEPTH, _ => 0);
    var leaf := s.decode(action.cmx);
    var computed := if leaf.Some? then s.Open(leaf.value, 0, meta.position, path) else 0;
    wit := ScanWitness(true, height, Some(computed + 1), [ScanPath(meta.position, path)]);
  }

  /**
   * The exact condition: if the reply's root is that of the leaves and the node hash is
   * injective, the note opens if and only if the reported position holds its commitment and the
   * reported path is the tree's own.
   */
  lemma ScanNoteOpensIff(s: W.Scheme, leaves: seq<W.Digest>, out: SpendNote)
    requires s.Injective()
    requires |out.path| == W.DEPTH && s.decode(out.action.cmx).Some?
    ensures NoteOpens(s, s.Root(leaves), out) <==>
              && s.decode(out.action.cmx).value == s.Node(leaves, 0, out.position)
              && out.path == s.AuthPath(leaves, out.position)
  {
    W.CapacityIsTwo32();
    s.OnlyTheTreePathOpens(leaves, 0, out.position, s.decode(out.action.cmx).value, out.path);
  }

  /** Position and path as the chain's own index and tree give them. */
  ghost predicate HonestReply(s: W.Scheme, chain: seq<Block>, meta: Spendable, path: seq<W.Digest>, anchor: W.Digest) {
    var es := Entries(Txs(chain));
    && s.Decode(Commitments(es)).Some?
    && meta.position < |es| && es[meta.position].Key() == meta.Id()
    && path == s.AuthPath(s.Decode(Commitments(es)).value, meta.position)
    && anchor == s.Root(s.Decode(Commitments(es)).value)
  }

  /** With an honest reply the looked-up action is the one at the position, and its path opens. */
  lemma HonestReplyOpens(s: W.Scheme, chain: seq<Block>, meta: Spendable, action: Action,
                         path: seq<W.Digest>, anchor: W.Digest)
    requires BuildIndex(chain).Some?
    requires UniqueTxids(Txs(chain)) && |Entries(Txs(chain))| < TWO32
    requires LookupAt(chain, meta.height, meta.txid, meta.index) == Found(action)
    requires HonestReply(s, chain, meta, path, anchor)
    ensures NoteOpens(s, anchor, SpendNote(meta.Id(), action, meta.position, path))
  {
    hide W.Scheme.Decode, W.Scheme.Root, W.Scheme.Open, W.Scheme.AuthPath, Entries, Txs, IndexOf, LookupAt;
    var es := Entries(Txs(chain));
    var leaves := s.Decode(Commitments(es)).value;
    LookupIsIndexed(chain, meta.height, meta.txid, meta.index);
    PositionIsRank(chain, meta.position);
    BuildableIsWellEncoded(Txs(chain));
    IndexIsLocated(es);
    var a := BuildIndex(chain).value.byOutpoint[meta.Id()];
    assert Located(es, meta.Id(), a) && a.position == meta.position;
    LeafAt(s, Commitments(es), meta.position);
    W.PathsOpenToTheRoot(s, leaves, meta.position);
  }

  /**
   * In a scanner-backed run that returns and whose reads met the anchor chain, a note looked up
   * in its cached block opens to the anchor chain's root if the reply about it was honest.
   */
  lemma ScanPlanOpensOnAnchorChain(w: A.World, c: A.Config, run: seq<A.State>, n: nat, s: W.Scheme,
                                   meta: Spendable, action: Action, path: seq<W.Digest>, anchor: W.Digest)
    requires A.CollisionFree(w) && A.IsRun(w, c, run) && c.mode.ScannerBacked?
    requires n < |run| && run[n].phase.Returned?
    requires var session := run[n].phase.s;
             && session.captured < |run|
             && 0 <= session.info.height < |run[session.captured].node.chain|
             && A.ReadsHitAnchor(run, session)
             && meta.height in session.fetched
             && ActionIn(session.fetched[meta.height].block.txs, meta.txid, meta.index) == Found(action)
             && var chain := A.AnchorChain(run, session);
                && BuildIndex(chain).Some? && UniqueTxids(Txs(chain)) && |Entries(Txs(chain))| < TWO32
                && HonestReply(s, chain, meta, path, anchor)
    ensures NoteOpens(s, anchor, SpendNote(meta.Id(), action, meta.position, path))
  {
    hide BuildIndex, HonestReply, A.IsRun, A.CollisionFree, A.ReadsHitAnchor, Entries, Txs, NoteOpens;
    A.HitsLookUpInAnchor(w, c, run, n);
    HonestReplyOpens(s, A.AnchorChain(run, run[n].phase.s), meta, action, path, anchor);
  }
}
