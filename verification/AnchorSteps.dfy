/**
 * What the planner's steps ask of node and scanner, exactly: while both stay as they are, which
 * of them lets planning begin, which block a read brings, and when a finished plan is returned.
 */
module AnchorSteps {
  import opened Machine
  import opened ChainIndex
  import opened AnchorProtocol

  function Quiet(time: nat, node: Node, scanner: Scanner, phases: seq<Phase>): seq<State> {
    seq(|phases|, (i: nat) requires i < |phases| => State(time + i, node, scanner, phases[i]))
  }

  ghost predicate AllNext(w: World, c: Config, run: seq<State>) {
    forall i :: 0 <= i < |run| - 1 ==> Next(w, c, run[i], run[i + 1])
  }

  ghost predicate ScannerHas(scanner: Scanner, height: int, hash: string) {
    scanner.ok && scanner.height == Some(height) && scanner.hash == Some(hash)
  }

  lemma NextOfTwo(w: World, c: Config, time: nat, node: Node, scanner: Scanner, p: Phase, r: Phase)
    requires p != r && !r.Failed?
    ensures AllNext(w, c, Quiet(time, node, scanner, [p, r])) <==>
              PlannerStep(w, c, State(time, node, scanner, p), r)
  {
    hide PlannerStep;
    var run := Quiet(time, node, scanner, [p, r]);
    assert run[0] == State(time, node, scanner, p) && run[1] == State(time + 1, node, scanner, r);
    assert AllNext(w, c, run) <==> Next(w, c, run[0], run[1]);
  }

  lemma NextOfMore(w: World, c: Config, time: nat, node: Node, scanner: Scanner, p: Phase, rest: seq<Phase>)
    requires rest != [] && p != rest[0] && !rest[0].Failed?
    ensures AllNext(w, c, Quiet(time, node, scanner, [p] + rest)) <==>
              && PlannerStep(w, c, State(time, node, scanner, p), rest[0])
              && AllNext(w, c, Quiet(time + 1, node, scanner, rest))
  {
    hide PlannerStep;
    var run, tail := Quiet(time, node, scanner, [p] + rest), Quiet(time + 1, node, scanner, rest);
    assert run[0] == State(time, node, scanner, p) && run[1] == State(time + 1, node, scanner, rest[0]);
    assert forall i :: 0 <= i < |tail| ==> tail[i] == run[i + 1];
    if AllNext(w, c, tail) && Next(w, c, run[0], run[1]) {
      forall i | 0 <= i < |run| - 1
        ensures Next(w, c, run[i], run[i + 1])
      {
        assert i > 0 ==> Next(w, c, tail[i - 1], tail[i]);
      }
    }
    if AllNext(w, c, run) {
      assert Next(w, c, run[0], run[1]);
      forall i | 0 <= i < |tail| - 1
        ensures Next(w, c, tail[i], tail[i + 1])
      {
        var k := i + 1;
        assert Next(w, c, run[k], run[k + 1]);
      }
    }
  }

  /** Planning begins exactly on a chain of at most 2^32 blocks whose tip the scanner, if used, has reached. */
  lemma QuietOpeningIff(w: World, c: Config, time: nat, node: Node, scanner: Scanner, anchor: string)
    ensures var info := ChainInfo(node.network, |node.chain| - 1, node.branch);
            var s := Session(info, anchor, time + 1, time + 1, map[]);
            AllNext(w, c, Quiet(time, node, scanner,
                                [Idle, HaveInfo(info), Captured(s), Reading(s.(since := time + 2))])) <==>
              && 1 <= |node.chain| <= 0x1_0000_0000
              && anchor == w.hash(node.chain) && anchor != ""
              && (c.mode.ScannerBacked? ==> ScannerHas(scanner, |node.chain| - 1, anchor))
  {
    var info := ChainInfo(node.network, |node.chain| - 1, node.branch);
    var s := Session(info, anchor, time + 1, time + 1, map[]);
    var captured, reading := Captured(s), Reading(s.(since := time + 2));
    NextOfMore(w, c, time, node, scanner, Idle, [HaveInfo(info), captured, reading]);
    NextOfMore(w, c, time + 1, node, scanner, HaveInfo(info), [captured, reading]);
    NextOfTwo(w, c, time + 2, node, scanner, captured, reading);
    assert [Idle] + [HaveInfo(info), captured, reading] == [Idle, HaveInfo(info), captured, reading];
    assert [HaveInfo(info)] + [captured, reading] == [HaveInfo(info), captured, reading];
    assert node.chain[..|node.chain|] == node.chain;
    hide AllNext, Quiet;
  }

  /**
   * A read brings exactly the block at its height: of a height up to the anchor's not read before,
   * and in node-backed mode the next one.
   */
  lemma QuietReadIff(w: World, c: Config, time: nat, node: Node, scanner: Scanner, s: Session, height: nat, b: Block)
    requires CollisionFree(w)
    requires height < |node.chain|
    ensures var hash, after := w.hash(node.chain[..height + 1]), s.(fetched := s.fetched[height := Read(b, time)]);
            AllNext(w, c, Quiet(time, node, scanner,
                                [Reading(s), Fetching(s, height, hash, time), Reading(after)])) <==>
              && height <= s.info.height && height !in s.fetched
              && (c.mode.NodeBacked? ==> forall i :: 0 <= i < height ==> i in s.fetched)
              && b == node.chain[height]
  {
    var hash, after := w.hash(node.chain[..height + 1]), s.(fetched := s.fetched[height := Read(b, time)]);
    var fetching := Fetching(s, height, hash, time);
    NextOfMore(w, c, time, node, scanner, Reading(s), [fetching, Reading(after)]);
    NextOfTwo(w, c, time + 1, node, scanner, fetching, Reading(after));
    assert [Reading(s)] + [fetching, Reading(after)] == [Reading(s), fetching, Reading(after)];
    HashNamesBlock(w, node.chain, height, b);
    hide AllNext, Quiet, BlockWithHash, MayPlan;
  }

  lemma HashNamesBlock(w: World, chain: seq<Block>, height: nat, b: Block)
    requires CollisionFree(w)
    requires height < |chain|
    ensures BlockWithHash(w, w.hash(chain[..height + 1]), b) <==> b == chain[height]
  {
    var p := chain[..height + 1];
    assert p != [] && p[|p| - 1] == chain[height];
  }

  /**
   * A finished plan is returned exactly when the blocks index (node-backed), the anchor is still
   * the node's at its height, the scanner (if used) is still at the anchor, network and branch are
   * the same, and the tip leaves at least three blocks before the expiry height.
   */
  lemma QuietPlanReturnsIff(w: World, c: Config, time: nat, node: Node, scanner: Scanner, s: Session, expiry: uint32)
    ensures AllNext(w, c, Quiet(time, node, scanner,
                                [ Reading(s), Planned(s, expiry), NodeChecked(s, expiry, time + 1),
                                  ScannerChecked(s, expiry, time + 1, time + 2),
                                  Returned(s, expiry, time + 1, time + 2, time + 3) ])) <==>
              && 0 <= s.info.height < |node.chain| && s.info.height < 0x1_0000_0000
              && (c.mode.NodeBacked? ==>
                    && ReadAll(s)
                    && var ix := BuildIndex(BlocksRead(s, s.info.height + 1)); ix.Some? && ix.value.cmxs != [])
              && expiry == s.info.height + 1 + c.expiryOffset
              && s.anchor != "" && w.hash(node.chain[..s.info.height + 1]) == s.anchor
              && (c.mode.ScannerBacked? ==> ScannerHas(scanner, s.info.height, s.anchor))
              && node.network == s.info.network && node.branch == s.info.branch
              && |node.chain| + 3 <= expiry
  {
    hide AllNext, Quiet, PlannerStep, BuildIndex, ReadAll;
    FourSteps(w, c, time, node, scanner, s, expiry);
    PlanStepIff(w, c, State(time, node, scanner, Reading(s)), s, expiry);
    CheckStepsIff(w, c, time + 1, node, scanner, s, expiry);
  }

  lemma FourSteps(w: World, c: Config, time: nat, node: Node, scanner: Scanner, s: Session, expiry: uint32)
    ensures var planned, nodeChecked := Planned(s, expiry), NodeChecked(s, expiry, time + 1);
            var scannerChecked := ScannerChecked(s, expiry, time + 1, time + 2);
            var returned := Returned(s, expiry, time + 1, time + 2, time + 3);
            AllNext(w, c, Quiet(time, node, scanner,
                                [Reading(s), planned, nodeChecked, scannerChecked, returned])) <==>
              && PlannerStep(w, c, State(time, node, scanner, Reading(s)), planned)
              && PlannerStep(w, c, State(time + 1, node, scanner, planned), nodeChecked)
              && PlannerStep(w, c, State(time + 2, node, scanner, nodeChecked), scannerChecked)
              && PlannerStep(w, c, State(time + 3, node, scanner, scannerChecked), returned)
  {
    hide AllNext, Quiet, PlannerStep;
    var planned, nodeChecked := Planned(s, expiry), NodeChecked(s, expiry, time + 1);
    var scannerChecked := ScannerChecked(s, expiry, time + 1, time + 2);
    var returned := Returned(s, expiry, time + 1, time + 2, time + 3);
    NextOfMore(w, c, time, node, scanner, Reading(s), [planned, nodeChecked, scannerChecked, returned]);
    NextOfMore(w, c, time + 1, node, scanner, planned, [nodeChecked, scannerChecked, returned]);
    NextOfMore(w, c, time + 2, node, scanner, nodeChecked, [scannerChecked, returned]);
    NextOfTwo(w, c, time + 3, node, scanner, scannerChecked, returned);
    assert [Reading(s)] + [planned, nodeChecked, scannerChecked, returned] ==
           [Reading(s), planned, nodeChecked, scannerChecked, returned];
    assert [planned] + [nodeChecked, scannerChecked, returned] == [planned, nodeChecked, scannerChecked, returned];
    assert [nodeChecked] + [scannerChecked, returned] == [nodeChecked, scannerChecked, returned];
  }

  lemma PlanStepIff(w: World, c: Config, a: State, s: Session, expiry: uint32)
    requires a.phase == Reading(s)
    ensures PlannerStep(w, c, a, Planned(s, expiry)) <==>
              && 0 <= s.info.height < 0x1_0000_0000
              && (c.mode.NodeBacked? ==>
                    && ReadAll(s)
                    && var ix := BuildIndex(BlocksRead(s, s.info.height + 1)); ix.Some? && ix.value.cmxs != [])
              && expiry == s.info.height + 1 + c.expiryOffset
  {
    hide BuildIndex, ReadAll, MayRead;
  }

  lemma CheckStepsIff(w: World, c: Config, time: nat, node: Node, scanner: Scanner, s: Session, expiry: uint32)
    ensures PlannerStep(w, c, State(time, node, scanner, Planned(s, expiry)), NodeChecked(s, expiry, time)) <==>
              && 0 <= s.info.height < |node.chain|
              && s.anchor != "" && w.hash(node.chain[..s.info.height + 1]) == s.anchor
    ensures PlannerStep(w, c, State(time + 1, node, scanner, NodeChecked(s, expiry, time)),
                        ScannerChecked(s, expiry, time, time + 1)) && s.anchor != "" <==>
              s.anchor != "" && (c.mode.ScannerBacked? ==> ScannerHas(scanner, s.info.height, s.anchor))
    ensures PlannerStep(w, c, State(time + 2, node, scanner, ScannerChecked(s, expiry, time, time + 1)),
                        Returned(s, expiry, time, time + 1, time + 2)) && s.info.height < |node.chain| <==>
              && s.info.height < |node.chain|
              && node.network == s.info.network && node.branch == s.info.branch
              && |node.chain| + 3 <= expiry
  {
  }

  // ----- the order of the reads -----

  /** The heights read are the first ones, each was read before time `last`, and higher ones later. */
  ghost predicate InOrder(s: Session, last: nat) {
    forall i :: i in s.fetched ==>
      && s.fetched[i].at < last
      && forall j :: 0 <= j < i ==> j in s.fetched && s.fetched[j].at < s.fetched[i].at
  }

  ghost predicate ReadInOrder(p: Phase, n: nat) {
    match p
    case Idle => true
    case HaveInfo(_) => true
    case Captured(s) => s.fetched == map[]
    case Reading(s) => InOrder(s, n)
    case Fetching(s, height, _, at) =>
      at < n && InOrder(s, at) && height !in s.fetched && forall i :: 0 <= i < height ==> i in s.fetched
    case Planned(s, _) => InOrder(s, n)
    case NodeChecked(s, _, _) => InOrder(s, n)
    case ScannerChecked(s, _, _, _) => InOrder(s, n)
    case Returned(s, _, _, _, _) => InOrder(s, n)
    case Failed => true
  }

  lemma StepReadsInOrder(w: World, c: Config, a: State, b: State)
    requires c.mode.NodeBacked?
    requires Next(w, c, a, b)
    requires ReadInOrder(a.phase, a.time)
    ensures ReadInOrder(b.phase, b.time)
  {
    hide HashAt, MayPlan, BlockWithHash, BuildIndex;
  }

  /** A node-backed planner reads the heights from zero upwards, one after the other, in every run. */
  lemma {:induction false} RunReadsInOrder(w: World, c: Config, run: seq<State>, n: nat)
    requires c.mode.NodeBacked?
    requires IsRun(w, c, run)
    requires n < |run|
    ensures run[n].time == n
    ensures ReadInOrder(run[n].phase, n)
  {
    hide Next;
    if n > 0 {
      var m := n - 1;
      RunReadsInOrder(w, c, run, m);
      assert Next(w, c, run[m], run[m + 1]);
      StepReadsInOrder(w, c, run[m], run[n]);
      TimePasses(w, c, run[m], run[n]);
    }
  }

  lemma TimePasses(w: World, c: Config, a: State, b: State)
    requires Next(w, c, a, b)
    ensures b.time == a.time + 1
  {
  }
}
