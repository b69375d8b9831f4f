/**
 * The notes of a node-backed plan: each selected note is looked up in the index, witnessed at
 * its position, and given the path that opens its commitment to the plan's anchor.
 */
module NodePlan {
  import opened Machine
  import opened Notes
  import opened NoteIds
  import opened ChainIndex
  import W = Witness

  datatype SpendNote = SpendNote(noteId: string, action: Action, position: uint32, path: seq<W.Digest>)

  datatype Assembled = Assembled(anchor: W.Digest, notes: seq<SpendNote>) | Failed

  ghost predicate AllIndexed(ix: OrchardIndex, selected: seq<Note>) {
    forall i :: 0 <= i < |selected| ==> NoteId(selected[i].txid, selected[i].index) in ix.byOutpoint
  }

  function Position(ix: OrchardIndex, n: Note): uint32
    requires NoteId(n.txid, n.index) in ix.byOutpoint
  {
    ix.byOutpoint[NoteId(n.txid, n.index)].position
  }

  ghost function Positions(ix: OrchardIndex, selected: seq<Note>): seq<uint32>
    requires AllIndexed(ix, selected)
  {
    seq(|selected|, i requires 0 <= i < |selected| => Position(ix, selected[i]))
  }

  /**
   * The note is described by its index entry, and from the commitment at its position the path
   * recomputes the anchor.
   */
  ghost predicate Opens(s: W.Scheme, ix: OrchardIndex, anchor: W.Digest, n: Note, out: SpendNote) {
    var key := NoteId(n.txid, n.index);
    && key in ix.byOutpoint
    && out.noteId == key
    && out.action == ix.byOutpoint[key].action
    && out.position == ix.byOutpoint[key].position
    && out.position < |ix.cmxs|
    && s.decode(ix.cmxs[out.position]).Some?
    && |out.path| == W.DEPTH
    && s.Open(s.decode(ix.cmxs[out.position]).value, 0, out.position, out.path) == anchor
  }

  /** One plan note per selected note, each opening to the root over the index's commitments. */
  ghost predicate IsAssembled(s: W.Scheme, ix: OrchardIndex, selected: seq<Note>,
                              anchor: W.Digest, notes: seq<SpendNote>)
  {
    && |notes| == |selected|
    && (forall i :: 0 <= i < |selected| ==> Opens(s, ix, anchor, selected[i], notes[i]))
    && s.Decode(ix.cmxs).Some? && anchor == s.Root(s.Decode(ix.cmxs).value)
  }

  /** Fails exactly when a note is not indexed or the witness request is invalid. */
  method AssembleNotes(s: W.Scheme, ix: OrchardIndex, selected: seq<Note>) returns (r: Assembled)
    ensures r.Assembled? <==> AllIndexed(ix, selected) && W.ValidRequest(s, ix.cmxs, Positions(ix, selected))
    ensures r.Assembled? ==> IsAssembled(s, ix, selected, r.anchor, r.notes)
  {
    hide NoteId, W.Scheme.Decode, W.Scheme.Root, W.Scheme.AuthPath, W.Scheme.Open;
    var positions: seq<uint32>, planNotes: seq<SpendNote> := [], [];
    for i := 0 to |selected|
      invariant |positions| == |planNotes| == i
      invariant AllIndexed(ix, selected[..i])
      invariant forall k :: 0 <= k < i ==> positions[k] == Position(ix, selected[k])
      invariant forall k :: 0 <= k < i ==>
                              var key := NoteId(selected[k].txid, selected[k].index);
                              planNotes[k] == SpendNote(key, ix.byOutpoint[key].action, positions[k], [])
    {
      var key := NoteId(selected[i].txid, selected[i].index);
      if key !in ix.byOutpoint {
        return Failed;
      }
      var act := ix.byOutpoint[key];
      planNotes := planNotes + [SpendNote(key, act.action, act.position, [])];
      positions := positions + [act.position];
      assert selected[..i + 1] == selected[..i] + [selected[i]];
    }
    assert selected[..|selected|] == selected;
    assert positions == Positions(ix, selected);
    var wit := W.OrchardWitness(s, ix.cmxs, positions);
    if !wit.Ok? {
      return Failed;
    }
    ghost var leaves := s.Decode(ix.cmxs).value;
    W.DecodeKeepsLength(s, ix.cmxs);
    for i := 0 to |planNotes|
      invariant |planNotes| == |selected|
      invariant forall k :: 0 <= k < i ==> Opens(s, ix, wit.root, selected[k], planNotes[k])
      invariant forall k :: i <= k < |planNotes| ==>
                              var key := NoteId(selected[k].txid, selected[k].index);
                              planNotes[k] == SpendNote(key, ix.byOutpoint[key].action, positions[k], [])
    {
      assert wit.paths[i].position == planNotes[i].position;  // the source's mismatch error is unreachable
      W.PathsOpenToTheRoot(s, leaves, positions[i]);
      LeafAt(s, ix.cmxs, positions[i]);
      planNotes := planNotes[i := planNotes[i].(path := wit.paths[i].authPath)];
    }
    return Assembled(wit.root, planNotes);
  }

  lemma {:induction false} LeafAt(s: W.Scheme, cmxs: seq<string>, k: nat)
    requires s.Decode(cmxs).Some? && k < |cmxs|
    ensures |s.Decode(cmxs).value| == |cmxs|
    ensures s.decode(cmxs[k]) == Some(s.Decode(cmxs).value[k])
  {
    W.DecodeKeepsLength(s, cmxs);
    var upTo := cmxs[..k + 1];
    assert upTo[..k] == cmxs[..k] && upTo[k] == cmxs[k];
    assert s.Decode(upTo) == Some(s.Decode(cmxs).value[..k + 1]);
    assert s.Decode(upTo).value[k] == s.Decode(cmxs).value[k];
  }

  /**
   * On an index of a chain, selected notes with distinct outpoints that are on the chain always
   * make a valid witness request: positions are in range and never repeat.
   */
  lemma IndexedNotesMakeValidRequest(s: W.Scheme, blocks: seq<Block>, selected: seq<Note>)
    requires BuildIndex(blocks).Some?
    requires |Entries(Txs(blocks))| < TWO32
    requires AllIndexed(BuildIndex(blocks).value, selected)
    requires Distinct(seq(|selected|, i requires 0 <= i < |selected| => NoteId(selected[i].txid, selected[i].index)))
    requires 0 < |selected| <= W.MAX_POSITIONS
    requires s.Decode(BuildIndex(blocks).value.cmxs).Some?
    ensures var ix := BuildIndex(blocks).value; W.ValidRequest(s, ix.cmxs, Positions(ix, selected))
  {
    hide NoteId, W.Scheme.Decode, Entries, Txs, IndexOf;
    var ix := BuildIndex(blocks).value;
    BuildableIsWellEncoded(Txs(blocks));
    IndexIsLocated(Entries(Txs(blocks)));
    var ids := seq(|selected|, i requires 0 <= i < |selected| => NoteId(selected[i].txid, selected[i].index));
    forall i | 0 <= i < |selected|
      ensures Position(ix, selected[i]) < |ix.cmxs|
    {
      IndexAgreesWithTree(blocks, ids[i], ids[i]);
    }
    forall i, j | 0 <= i < j < |selected|
      ensures Position(ix, selected[i]) != Position(ix, selected[j])
    {
      assert ids[i] != ids[j];
      IndexAgreesWithTree(blocks, ids[i], ids[j]);
    }
    var positions := Positions(ix, selected);
    assert positions[0] < |ix.cmxs|;
    assert Distinct(positions);
  }

  // ----- what the notes mean on the chain -----

  /** The commitments of the chain's actions, in chain order. */
  function Commitments(es: seq<Entry>): seq<string> {
    seq(|es|, k requires 0 <= k < |es| => es[k].action.cmx)
  }

  /**
   * The note's outpoint is the action at its position on the chain, and from that action's own
   * commitment the path recomputes the anchor, which is the root over the chain's commitments.
   */
  ghost predicate OpensOnChain(s: W.Scheme, chain: seq<Block>, anchor: W.Digest, n: Note, out: SpendNote) {
    var es := Entries(Txs(chain));
    && out.position < |es|
    && es[out.position].Key() == NoteId(n.txid, n.index) == out.noteId
    && Encodes(es[out.position].action) && Shortens(out.action, es[out.position].action)
    && s.decode(es[out.position].action.cmx).Some?
    && |out.path| == W.DEPTH
    && s.Open(s.decode(es[out.position].action.cmx).value, 0, out.position, out.path) == anchor
    && s.Decode(Commitments(es)).Some? && anchor == s.Root(s.Decode(Commitments(es)).value)
  }

  lemma AssembledOpensOnChain(s: W.Scheme, chain: seq<Block>, selected: seq<Note>, anchor: W.Digest,
                              notes: seq<SpendNote>)
    requires BuildIndex(chain).Some? && |Entries(Txs(chain))| <= TWO32
    requires IsAssembled(s, BuildIndex(chain).value, selected, anchor, notes)
    ensures |notes| == |selected|
    ensures forall i :: 0 <= i < |selected| ==> OpensOnChain(s, chain, anchor, selected[i], notes[i])
  {
    hide NoteId, W.Scheme.Decode, W.Scheme.Root, W.Scheme.Open, Entries, Txs, IndexOf, WellEncoded, Encodes;
    var ix, es := BuildIndex(chain).value, Entries(Txs(chain));
    BuildableIsWellEncoded(Txs(chain));
    IndexIsLocated(es);
    assert ix.cmxs == Commitments(es);
    forall i | 0 <= i < |selected|
      ensures OpensOnChain(s, chain, anchor, selected[i], notes[i])
    {
      assert Opens(s, ix, anchor, selected[i], notes[i]);
      var key := NoteId(selected[i].txid, selected[i].index);
      assert Located(es, key, ix.byOutpoint[key]);
      WellEncodedIffEncodes(es[notes[i].position].action);
    }
  }
}
