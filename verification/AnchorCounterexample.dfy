/**
 * Why the snapshot theorem needs its assumption: the anchor checks compare hashes at two
 * instants, so a block that is abandoned and then returns is not noticed.
 */
module AnchorCounterexample {
  import opened Machine
  import opened ChainIndex
  import opened NoteIds
  import opened AnchorProtocol

  function ZeroDigest(): string {
    seq(64, _ => '0')
  }

  function SampleAction(): Action {
    Action(ZeroDigest(), ZeroDigest(), ZeroDigest(), seq(COMPACT_CIPHERTEXT_LENGTH, _ => '0'))
  }

  const EMPTY_BLOCK: Block := Block([])
  const OTHER_BLOCK: Block := Block([Tx("a", [SampleAction()])])

  const CONFIG: Config := Config(NodeBacked, 40)

  /** The chain whose tip is the anchor, and the one that replaces it for a while. */
  const ANCHORED: seq<Block> := [EMPTY_BLOCK, EMPTY_BLOCK]
  const REPLACED: seq<Block> := [EMPTY_BLOCK, OTHER_BLOCK]

  function At(time: nat, chain: seq<Block>, phase: Phase): State {
    State(time, Node(chain, "main", 0), Scanner(false, None, None), phase)
  }

  function Opening(w: World): Session {
    Session(ChainInfo("main", 1, 0), w.hash(ANCHORED), 1, 2, map[])
  }

  function Halfway(w: World): Session {
    Opening(w).(fetched := map[0 := Read(EMPTY_BLOCK, 3)])
  }

  function Complete(w: World): Session {
    Opening(w).(fetched := map[0 := Read(EMPTY_BLOCK, 3), 1 := Read(OTHER_BLOCK, 6)])
  }

  /** The tip is replaced while height one is read and is back before the closing check. */
  function ReplacingRun(w: World): seq<State> {
    [ At(0, ANCHORED, Idle),
      At(1, ANCHORED, HaveInfo(ChainInfo("main", 1, 0))),
      At(2, ANCHORED, Captured(Opening(w).(since := 1))),
      At(3, ANCHORED, Reading(Opening(w))),
      At(4, ANCHORED, Fetching(Opening(w), 0, w.hash(ANCHORED[..1]), 3)),
      At(5, ANCHORED, Reading(Halfway(w))),
      At(6, REPLACED, Reading(Halfway(w))),
      At(7, REPLACED, Fetching(Halfway(w), 1, w.hash(REPLACED[..2]), 6)),
      At(8, REPLACED, Reading(Complete(w))),
      At(9, ANCHORED, Reading(Complete(w))),
      At(10, ANCHORED, Planned(Complete(w), 42)),
      At(11, ANCHORED, NodeChecked(Complete(w), 42, 10)),
      At(12, ANCHORED, ScannerChecked(Complete(w), 42, 10, 11)),
      At(13, ANCHORED, Returned(Complete(w), 42, 10, 11, 12)) ]
  }

  lemma SampleIsWellEncoded()
    ensures WellEncoded(SampleAction())
  {
    var c := SampleAction().encCiphertext;
    assert c[..COMPACT_CIPHERTEXT_LENGTH] == c;
  }

  lemma ReplacedBuilds()
    ensures BuildIndex(REPLACED).Some? && BuildIndex(REPLACED).value.cmxs == [ZeroDigest()]
  {
    hide Txs, Entries, IndexOf, WellEncoded, NoteId, SampleAction;
    var t, e := Tx("a", [SampleAction()]), Entry("a", 0, SampleAction());
    SampleIsWellEncoded();
    NothingYet();
    IndexOfNothing();
    assert REPLACED == ([] + [EMPTY_BLOCK]) + [OTHER_BLOCK];
    TxsSnoc([], EMPTY_BLOCK);
    TxsSnoc([] + [EMPTY_BLOCK], OTHER_BLOCK);
    assert Txs(REPLACED) == [] + [t];
    EntriesSnoc([], t);
    assert TxEntries(t, 1) == [e];
    assert Entries([] + [t]) == [] + [e];
    IndexSnoc([], e);
    SampleCommitment();
    assert TxBuildable(t);
    assert BuildIndex(REPLACED) == Some(IndexOf([] + [e]));
    assert BuildIndex(REPLACED).value.cmxs == [] + [ZeroDigest()];
  }

  lemma SampleCommitment()
    ensures SampleAction().cmx == ZeroDigest()
  {
  }

  lemma AnchoredIsEmpty()
    ensures BuildIndex(ANCHORED).Some? && BuildIndex(ANCHORED).value.cmxs == []
  {
    hide Txs, Entries, IndexOf;
    NothingYet();
    IndexOfNothing();
    assert ANCHORED == ([] + [EMPTY_BLOCK]) + [EMPTY_BLOCK];
    TxsSnoc([], EMPTY_BLOCK);
    TxsSnoc([] + [EMPTY_BLOCK], EMPTY_BLOCK);
  }

  lemma AskForBlock(w: World, time: nat, chain: seq<Block>, s: Session, height: nat)
    requires height < |chain| && MayRead(CONFIG, s, height)
    ensures Next(w, CONFIG, At(time, chain, Reading(s)),
                 At(time + 1, chain, Fetching(s, height, w.hash(chain[..height + 1]), time)))
  {
    hide MayRead;
  }

  lemma ReceiveBlock(w: World, time: nat, chain: seq<Block>, s: Session, height: nat, at: nat)
    requires height < |chain|
    ensures Next(w, CONFIG, At(time, chain, Fetching(s, height, w.hash(chain[..height + 1]), at)),
                 At(time + 1, chain, Reading(s.(fetched := s.fetched[height := Read(chain[height], at)]))))
  {
    var p := chain[..height + 1];
    assert p != [] && p[|p| - 1] == chain[height];
  }

  lemma OpeningSteps(w: World, i: nat)
    requires w.hash(ANCHORED) != ""
    requires i < 3
    ensures Next(w, CONFIG, ReplacingRun(w)[i], ReplacingRun(w)[i + 1])
  {
    hide MayPlan, MayRead, BlockWithHash;
    assert ANCHORED[..2] == ANCHORED;
  }

  lemma FirstBlockSteps(w: World)
    ensures var run := ReplacingRun(w); forall i :: 3 <= i < 6 ==> Next(w, CONFIG, run[i], run[i + 1])
  {
    hide Next, MayRead;
    assert MayRead(CONFIG, Opening(w), 0) by {
      FirstReadAllowed(w);
    }
    AskForBlock(w, 3, ANCHORED, Opening(w), 0);
    ReceiveBlock(w, 4, ANCHORED, Opening(w), 0, 3);
    assert Opening(w).fetched[0 := Read(EMPTY_BLOCK, 3)] == Halfway(w).fetched;
    Replace(w, 5, ANCHORED, REPLACED, Reading(Halfway(w)));
    var run := ReplacingRun(w);
    assert Next(w, CONFIG, run[3], run[4]) && Next(w, CONFIG, run[4], run[5]) && Next(w, CONFIG, run[5], run[6]);
  }

  lemma SecondBlockSteps(w: World)
    ensures var run := ReplacingRun(w); forall i :: 6 <= i < 9 ==> Next(w, CONFIG, run[i], run[i + 1])
  {
    hide Next, MayRead;
    assert MayRead(CONFIG, Halfway(w), 1) by {
      FirstReadAllowed(w);
    }
    AskForBlock(w, 6, REPLACED, Halfway(w), 1);
    ReceiveBlock(w, 7, REPLACED, Halfway(w), 1, 6);
    assert Halfway(w).fetched[1 := Read(OTHER_BLOCK, 6)] == Complete(w).fetched;
    Replace(w, 8, REPLACED, ANCHORED, Reading(Complete(w)));
    var run := ReplacingRun(w);
    assert Next(w, CONFIG, run[6], run[7]) && Next(w, CONFIG, run[7], run[8]) && Next(w, CONFIG, run[8], run[9]);
  }

  lemma FirstReadAllowed(w: World)
    ensures MayRead(CONFIG, Opening(w), 0) && MayRead(CONFIG, Halfway(w), 1)
  {
  }

  lemma Replace(w: World, time: nat, before: seq<Block>, after: seq<Block>, phase: Phase)
    ensures Next(w, CONFIG, At(time, before, phase), At(time + 1, after, phase))
  {
  }

  lemma PlanStep(w: World)
    ensures Next(w, CONFIG, ReplacingRun(w)[9], ReplacingRun(w)[10])
  {
    hide BuildIndex, BlocksRead;
    CompleteIsReplaced(w);
    ReplacedBuilds();
    assert MayPlan(CONFIG, Complete(w));
  }

  lemma CompleteIsReplaced(w: World)
    ensures ReadAll(Complete(w)) && BlocksRead(Complete(w), 2) == REPLACED
  {
  }

  lemma ClosingSteps(w: World, i: nat)
    requires w.hash(ANCHORED) != ""
    requires 10 <= i < 13
    ensures Next(w, CONFIG, ReplacingRun(w)[i], ReplacingRun(w)[i + 1])
  {
    hide BuildIndex, BlocksRead;
    assert ANCHORED[..2] == ANCHORED;
  }

  lemma ReplacingRunIsRun(w: World)
    requires w.hash(ANCHORED) != ""
    ensures IsRun(w, CONFIG, ReplacingRun(w))
  {
    hide Next;
    var run := ReplacingRun(w);
    forall i | 0 <= i < |run| - 1
      ensures Next(w, CONFIG, run[i], run[i + 1])
    {
      if i < 3 {
        OpeningSteps(w, i);
      } else if i < 9 {
        FirstBlockSteps(w);
        SecondBlockSteps(w);
      } else if i == 9 {
        PlanStep(w);
      } else {
        ClosingSteps(w, i);
      }
    }
  }

  /**
   * For every collision-free hash there is a run that returns a plan whose index is not the
   * index of the anchor chain; only the assumption on the environment rules it out.
   */
  lemma ReturningBlockGoesUnnoticed(w: World)
    requires CollisionFree(w) && w.hash(ANCHORED) != ""
    ensures IsRun(w, CONFIG, ReplacingRun(w))
    ensures ReplacingRun(w)[13].phase == Returned(Complete(w), 42, 10, 11, 12)
    ensures AnchorChain(ReplacingRun(w), Complete(w)) == ANCHORED
    ensures ReadAll(Complete(w)) && BuildIndex(BlocksRead(Complete(w), 2)) != BuildIndex(ANCHORED)
    ensures !AbandonedStaysAbandoned(ReplacingRun(w))
  {
    hide IsRun, BuildIndex, BlocksRead;
    var run := ReplacingRun(w);
    ReplacingRunIsRun(w);
    CompleteIsReplaced(w);
    ReplacedBuilds();
    AnchoredIsEmpty();
    assert run[1].node.chain[..2] == ANCHORED;
    assert OTHER_BLOCK.txs != [] && ANCHORED[1] != REPLACED[1];
    assert Canonical(run, 5, ANCHORED) && Canonical(run, 9, ANCHORED) && !Canonical(run, 6, ANCHORED);
  }
}
