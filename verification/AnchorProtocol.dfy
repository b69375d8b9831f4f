/**
 * The planning protocol: many separate reads of a node (and a scanner) that keep changing,
 * bracketed by two comparisons of the anchor's block hash.
 *
 * A run interleaves planner steps with environment steps that replace the chain, the network
 * parameters and the scanner's state at will. `time` and the recorded times are history
 * variables: no step depends on them.
 */
module AnchorProtocol {
  import opened Machine
  import opened Fees
  import opened ChainIndex

  const EXPIRING_SOON_THRESHOLD: int := 3

  /** The hash of a block commits to the block and all its ancestors. */
  datatype World = World(hash: seq<Block> -> string)

  ghost predicate CollisionFree(w: World) {
    forall a, b :: w.hash(a) == w.hash(b) ==> a == b
  }

  datatype Node = Node(chain: seq<Block>, network: string, branch: uint32) {
    function Info(): ChainInfo {
      ChainInfo(network, |chain| - 1, branch)
    }
  }

  datatype ChainInfo = ChainInfo(network: string, height: int, branch: uint32)

  datatype Scanner = Scanner(ok: bool, height: Option<int>, hash: Option<string>)

  datatype Mode = NodeBacked | ScannerBacked
  datatype Config = Config(mode: Mode, expiryOffset: uint32)

  datatype Read = Read(block: Block, at: nat)

  /** What the planner holds between the two anchor checks. */
  datatype Session = Session(info: ChainInfo, anchor: string, captured: nat, since: nat, fetched: map<nat, Read>)

  datatype Phase =
    | Idle
    | HaveInfo(info: ChainInfo)
    | Captured(s: Session)
    | Reading(s: Session)
    | Fetching(s: Session, height: nat, hash: string, at: nat)
    | Planned(s: Session, expiry: uint32)
    | NodeChecked(s: Session, expiry: uint32, closed: nat)
    | ScannerChecked(s: Session, expiry: uint32, closed: nat, scanned: nat)
    | Returned(s: Session, expiry: uint32, closed: nat, scanned: nat, confirmed: nat)
    | Failed

  datatype State = State(time: nat, node: Node, scanner: Scanner, phase: Phase)

  // ----- the single checks -----

  /** `GetBlockHash`: the hash on the node's current chain, or an error past its tip. */
  function HashAt(w: World, node: Node, height: int): Option<string> {
    if 0 <= height < |node.chain| then Some(w.hash(node.chain[..height + 1])) else None
  }

  function CaptureNodeAnchor(w: World, node: Node, height: int): Option<string> {
    match HashAt(w, node, height)
    case None => None
    case Some(h) => if h == "" then None else Some(h)
  }

  predicate VerifyNodeAnchor(w: World, node: Node, height: int, anchor: string) {
    height >= 0 && anchor != "" && HashAt(w, node, height) == Some(anchor)
  }

  predicate ScannerAtAnchor(sc: Scanner, height: int, anchor: string) {
    && sc.ok && sc.height == Some(height)
    && sc.hash.Some? && sc.hash.value != "" && sc.hash.value == anchor
  }

  predicate VerifyChainContext(current: ChainInfo, expected: ChainInfo, expiry: uint32) {
    && current.network == expected.network
    && current.height >= expected.height
    && current.branch == expected.branch
    && current.height + 1 + EXPIRING_SOON_THRESHOLD <= expiry
  }

  // ----- steps -----

  /** The hash fixes which block the node hands out, whether or not it is still on the chain. */
  ghost predicate BlockWithHash(w: World, hash: string, b: Block) {
    exists p :: p != [] && w.hash(p) == hash && p[|p| - 1] == b
  }

  /** Blocks read so far, as a sequence from height zero. */
  function BlocksRead(s: Session, n: nat): seq<Block>
    requires forall i :: 0 <= i < n ==> i in s.fetched
  {
    seq(n, i requires 0 <= i < n => s.fetched[i].block)
  }

  ghost predicate ReadAll(s: Session) {
    forall i :: 0 <= i <= s.info.height ==> i in s.fetched
  }

  /** The node-backed planners read every height in order; the scanner-backed ones any they need. */
  ghost predicate MayRead(c: Config, s: Session, height: nat) {
    && height <= s.info.height
    && height !in s.fetched
    && (c.mode.NodeBacked? ==> forall i :: 0 <= i < height ==> i in s.fetched)
  }

  /** In node-backed mode the whole index must build and be non-empty before a plan is made. */
  ghost predicate MayPlan(c: Config, s: Session) {
    c.mode.NodeBacked? ==>
      && ReadAll(s)
      && s.info.height >= 0
      && var ix := BuildIndex(BlocksRead(s, s.info.height + 1)); ix.Some? && ix.value.cmxs != []
  }

  ghost predicate PlannerStep(w: World, c: Config, a: State, p: Phase) {
    match a.phase
    case Idle =>
      p == HaveInfo(a.node.Info()) && 0 <= p.info.height < TWO32
    case HaveInfo(info) =>
      && p.Captured?
      && CaptureNodeAnchor(w, a.node, info.height) == Some(p.s.anchor)
      && p.s == Session(info, p.s.anchor, a.time, a.time, map[])
    case Captured(s) =>
      && (c.mode.ScannerBacked? ==> ScannerAtAnchor(a.scanner, s.info.height, s.anchor))
      && p == Reading(s.(since := a.time))
    case Reading(s) =>
      || (p.Fetching? && p.s == s && p.at == a.time && MayRead(c, s, p.height)
          && HashAt(w, a.node, p.height) == Some(p.hash))
      || (p.Planned? && p.s == s && MayPlan(c, s)
          && 0 <= s.info.height < TWO32
          && ExpiryHeightFromTip(s.info.height, c.expiryOffset) == Some(p.expiry))
    case Fetching(s, height, hash, at) =>
      && p.Reading?
      && height in p.s.fetched && p.s.fetched[height].at == at
      && BlockWithHash(w, hash, p.s.fetched[height].block)
      && p.s == s.(fetched := s.fetched[height := p.s.fetched[height]])
    case Planned(s, expiry) =>
      VerifyNodeAnchor(w, a.node, s.info.height, s.anchor) && p == NodeChecked(s, expiry, a.time)
    case NodeChecked(s, expiry, closed) =>
      && (c.mode.ScannerBacked? ==> ScannerAtAnchor(a.scanner, s.info.height, s.anchor))
      && p == ScannerChecked(s, expiry, closed, a.time)
    case ScannerChecked(s, expiry, closed, scanned) =>
      VerifyChainContext(a.node.Info(), s.info, expiry) && p == Returned(s, expiry, closed, scanned, a.time)
    case Returned(_, _, _, _, _) => false
    case Failed => false
  }

  /** The environment may do anything to node and scanner; the planner may also give up. */
  ghost predicate Next(w: World, c: Config, a: State, b: State) {
    && b.time == a.time + 1
    && (|| b.phase == a.phase
        || (b.node == a.node && b.scanner == a.scanner && (b.phase.Failed? || PlannerStep(w, c, a, b.phase))))
  }

  ghost predicate IsRun(w: World, c: Config, run: seq<State>) {
    && run != [] && run[0].phase.Idle? && run[0].time == 0
    && forall i :: 0 <= i < |run| - 1 ==> Next(w, c, run[i], run[i + 1])
  }

  /** At time `t` the chain contains the blocks `p` from height zero. */
  ghost predicate Canonical(run: seq<State>, t: nat, p: seq<Block>) {
    t < |run| && p <= run[t].node.chain
  }

  /** The assumption on the environment: an abandoned block does not come back. */
  ghost predicate AbandonedStaysAbandoned(run: seq<State>) {
    forall i: nat, j: nat, k: nat, p: seq<Block> | i <= j <= k && Canonical(run, i, p) && Canonical(run, k, p) ::
      Canonical(run, j, p)
  }

  // ----- what every step keeps -----

  /** Height `i` of the chain at time `t` holds `b`. */
  ghost predicate OnChainAt(run: seq<State>, t: nat, i: nat, b: Block) {
    t < |run| && i < |run[t].node.chain| && run[t].node.chain[i] == b
  }

  ghost predicate AnchorAt(w: World, run: seq<State>, t: nat, s: Session) {
    t < |run| && HashAt(w, run[t].node, s.info.height) == Some(s.anchor)
  }

  ghost predicate ScannerAt(run: seq<State>, t: nat, s: Session) {
    t < |run| && ScannerAtAnchor(run[t].scanner, s.info.height, s.anchor)
  }

  /** Captured at `captured`, since no earlier, and every block read in between and `last`. */
  ghost predicate SessionHolds(w: World, c: Config, run: seq<State>, last: nat, s: Session) {
    && s.captured <= s.since <= last < |run|
    && AnchorAt(w, run, s.captured, s)
    && forall i :: i in s.fetched ==>
         && i <= s.info.height && s.since <= s.fetched[i].at <= last
         && OnChainAt(run, s.fetched[i].at, i, s.fetched[i].block)
  }

  ghost predicate Opened(c: Config, run: seq<State>, s: Session) {
    c.mode.ScannerBacked? ==> ScannerAt(run, s.since, s)
  }

  ghost predicate Closed(w: World, c: Config, run: seq<State>, s: Session, expiry: uint32, closed: nat) {
    && SessionHolds(w, c, run, closed, s) && Opened(c, run, s) && AnchorAt(w, run, closed, s)
    && MayPlan(c, s)
    && 0 <= s.info.height < TWO32
    && ExpiryHeightFromTip(s.info.height, c.expiryOffset) == Some(expiry)
  }

  ghost predicate Inv(w: World, c: Config, run: seq<State>, n: nat)
    requires n < |run|
  {
    && run[n].time == n
    && match run[n].phase
       case Idle => true
       case HaveInfo(info) => true
       case Captured(s) => SessionHolds(w, c, run, n, s) && s.fetched == map[]
       case Reading(s) => SessionHolds(w, c, run, n, s) && Opened(c, run, s)
       case Fetching(s, height, hash, at) =>
         && SessionHolds(w, c, run, n, s) && Opened(c, run, s)
         && height <= s.info.height && s.since <= at <= n
         && HashAt(w, run[at].node, height) == Some(hash)
       case Planned(s, expiry) =>
         && SessionHolds(w, c, run, n, s) && Opened(c, run, s)
         && MayPlan(c, s)
         && 0 <= s.info.height < TWO32
         && ExpiryHeightFromTip(s.info.height, c.expiryOffset) == Some(expiry)
       case NodeChecked(s, expiry, closed) =>
         closed <= n && Closed(w, c, run, s, expiry, closed)
       case ScannerChecked(s, expiry, closed, scanned) =>
         && closed <= scanned <= n && Closed(w, c, run, s, expiry, closed)
         && (c.mode.ScannerBacked? ==> ScannerAt(run, scanned, s))
       case Returned(s, expiry, closed, scanned, confirmed) =>
         && closed <= scanned <= confirmed <= n && Closed(w, c, run, s, expiry, closed)
         && (c.mode.ScannerBacked? ==> ScannerAt(run, scanned, s))
         && VerifyChainContext(run[confirmed].node.Info(), s.info, expiry)
       case Failed => true
  }

  lemma FetchedBlock(w: World, run: seq<State>, at: nat, height: nat, hash: string, b: Block)
    requires CollisionFree(w)
    requires at < |run| && HashAt(w, run[at].node, height) == Some(hash)
    requires BlockWithHash(w, hash, b)
    ensures OnChainAt(run, at, height, b)
  {
    var p :| p != [] && w.hash(p) == hash && p[|p| - 1] == b;
    assert p == run[at].node.chain[..height + 1];
  }

  lemma StepKeepsInv(w: World, c: Config, run: seq<State>, n: nat)
    requires CollisionFree(w)
    requires n + 1 < |run|
    requires Inv(w, c, run, n)
    requires Next(w, c, run[n], run[n + 1])
    ensures Inv(w, c, run, n + 1)
  {
    hide CollisionFree, HashAt, ScannerAtAnchor, MayPlan, BlockWithHash, BuildIndex;
    var a, b := run[n], run[n + 1];
    if b.phase != a.phase && a.phase.Fetching? && b.phase.Reading? {
      var h := a.phase.height;
      FetchedBlock(w, run, a.phase.at, h, a.phase.hash, b.phase.s.fetched[h].block);
    }
  }

  lemma {:induction false} RunKeepsInv(w: World, c: Config, run: seq<State>, n: nat)
    requires CollisionFree(w)
    requires IsRun(w, c, run)
    requires n < |run|
    ensures Inv(w, c, run, n)
  {
    if n > 0 {
      RunKeepsInv(w, c, run, n - 1);
      StepKeepsInv(w, c, run, n - 1);
    }
  }

  // ----- what a returned plan saw -----

  /** The chain up to the anchor at the moment the anchor's hash was captured. */
  function AnchorChain(run: seq<State>, s: Session): seq<Block>
    requires s.captured < |run| && 0 <= s.info.height < |run[s.captured].node.chain|
  {
    run[s.captured].node.chain[..s.info.height + 1]
  }

  /** At the instant of each read, the node's block at that height was the anchor chain's. */
  ghost predicate ReadsHitAnchor(run: seq<State>, s: Session)
    requires s.captured < |run| && 0 <= s.info.height < |run[s.captured].node.chain|
  {
    forall i :: i in s.fetched ==>
      i <= s.info.height && OnChainAt(run, s.fetched[i].at, i, AnchorChain(run, s)[i])
  }

  /** What was read is the anchor chain's, block by block. */
  ghost predicate HoldsAnchorBlocks(run: seq<State>, s: Session)
    requires s.captured < |run| && 0 <= s.info.height < |run[s.captured].node.chain|
  {
    forall i :: i in s.fetched ==> i <= s.info.height && s.fetched[i].block == AnchorChain(run, s)[i]
  }

  /** What every returned session satisfies, with no assumption on the environment. */
  lemma ReturnedSession(w: World, c: Config, run: seq<State>, n: nat)
    requires CollisionFree(w)
    requires IsRun(w, c, run)
    requires n < |run| && run[n].phase.Returned?
    ensures var Returned(s, expiry, closed, scanned, confirmed) := run[n].phase;
            && s.captured <= s.since <= closed <= scanned <= confirmed <= n
            && 0 <= s.info.height < |run[s.captured].node.chain|
            && w.hash(AnchorChain(run, s)) == s.anchor
            && Canonical(run, closed, AnchorChain(run, s))
            && SessionHolds(w, c, run, closed, s) && MayPlan(c, s)
            && (c.mode.ScannerBacked? ==> ScannerAt(run, s.since, s) && ScannerAt(run, scanned, s))
  {
    hide IsRun, MayPlan;
    RunKeepsInv(w, c, run, n);
    var Returned(s, expiry, closed, scanned, confirmed) := run[n].phase;
    assert w.hash(run[closed].node.chain[..s.info.height + 1]) == w.hash(AnchorChain(run, s));
  }

  /**
   * The exact condition, in either mode and for every run that returns a plan: the blocks read
   * are the anchor chain's if and only if each read met the anchor chain on the node.
   */
  lemma ReadsAreAnchorBlocksIff(w: World, c: Config, run: seq<State>, n: nat)
    requires CollisionFree(w)
    requires IsRun(w, c, run)
    requires n < |run| && run[n].phase.Returned?
    ensures var s := run[n].phase.s;
            && s.captured < |run| && 0 <= s.info.height < |run[s.captured].node.chain|
            && (HoldsAnchorBlocks(run, s) <==> ReadsHitAnchor(run, s))
  {
    hide CollisionFree, IsRun, MayPlan;
    ReturnedSession(w, c, run, n);
    var s := run[n].phase.s;
    assert forall i :: i in s.fetched ==> OnChainAt(run, s.fetched[i].at, i, s.fetched[i].block);
  }

  /**
   * For a node-backed plan this is the exact condition of snapshot consistency: the index is
   * built from one atomic read of the chain that ended in the captured anchor if and only if
   * each read met that chain.
   */
  lemma SnapshotIffReadsHitAnchor(w: World, c: Config, run: seq<State>, n: nat)
    requires CollisionFree(w)
    requires IsRun(w, c, run)
    requires n < |run| && run[n].phase.Returned?
    requires c.mode.NodeBacked?
    ensures var s := run[n].phase.s;
            && s.captured < |run| && 0 <= s.info.height < |run[s.captured].node.chain|
            && ReadAll(s)
            && (BlocksRead(s, s.info.height + 1) == AnchorChain(run, s) <==> ReadsHitAnchor(run, s))
  {
    hide CollisionFree, IsRun, BuildIndex, ReadsHitAnchor;
    ReturnedSession(w, c, run, n);
    ReadsAreAnchorBlocksIff(w, c, run, n);
    var s := run[n].phase.s;
    var blocks, chain := BlocksRead(s, s.info.height + 1), AnchorChain(run, s);
    if blocks == chain {
      forall i | i in s.fetched
        ensures i <= s.info.height && s.fetched[i].block == chain[i]
      {
        assert blocks[i] == chain[i];
      }
    }
  }

  /** If abandoned blocks stay abandoned, the anchor chain never left the node between the checks. */
  lemma StableChainIsHit(w: World, c: Config, run: seq<State>, n: nat)
    requires CollisionFree(w)
    requires IsRun(w, c, run) && AbandonedStaysAbandoned(run)
    requires n < |run| && run[n].phase.Returned?
    ensures var s := run[n].phase.s;
            && s.captured < |run| && 0 <= s.info.height < |run[s.captured].node.chain|
            && ReadsHitAnchor(run, s)
  {
    hide CollisionFree, IsRun, MayPlan;
    ReturnedSession(w, c, run, n);
    var Returned(s, expiry, closed, scanned, confirmed) := run[n].phase;
    var chain := AnchorChain(run, s);
    assert Canonical(run, s.captured, chain);
    forall i | i in s.fetched
      ensures i <= s.info.height && OnChainAt(run, s.fetched[i].at, i, chain[i])
    {
      assert Canonical(run, s.fetched[i].at, chain);
    }
  }

  /**
   * Snapshot consistency: when a node-backed run returns a plan and abandoned blocks stayed
   * abandoned, the index it built is the index of one atomic read of the chain that ended in the
   * captured anchor, and that chain was still the node's at the closing check.
   */
  lemma PlanIsFromOneSnapshot(w: World, c: Config, run: seq<State>, n: nat)
    requires CollisionFree(w)
    requires IsRun(w, c, run) && AbandonedStaysAbandoned(run)
    requires n < |run| && run[n].phase.Returned?
    requires c.mode.NodeBacked?
    ensures var Returned(s, expiry, closed, scanned, confirmed) := run[n].phase;
            && s.captured <= closed <= confirmed <= n
            && 0 <= s.info.height < |run[s.captured].node.chain|
            && w.hash(AnchorChain(run, s)) == s.anchor
            && Canonical(run, closed, AnchorChain(run, s))
            && ReadAll(s)
            && BlocksRead(s, s.info.height + 1) == AnchorChain(run, s)
            && BuildIndex(BlocksRead(s, s.info.height + 1)) == BuildIndex(AnchorChain(run, s))
  {
    hide BuildIndex, CollisionFree, IsRun, AbandonedStaysAbandoned, ReadsHitAnchor;
    ReturnedSession(w, c, run, n);
    StableChainIsHit(w, c, run, n);
    SnapshotIffReadsHitAnchor(w, c, run, n);
  }

  /** In the given session every cached lookup answers as in the anchor snapshot. */
  ghost predicate LooksUpInAnchor(run: seq<State>, s: Session)
    requires s.captured < |run| && 0 <= s.info.height < |run[s.captured].node.chain|
  {
    forall i, txid, index: uint32 :: i in s.fetched ==>
      ActionIn(s.fetched[i].block.txs, txid, index) == LookupAt(AnchorChain(run, s), i, txid, index)
  }

  /** Whenever each read met the anchor chain, lookups answer as in the anchor snapshot. */
  lemma HitsLookUpInAnchor(w: World, c: Config, run: seq<State>, n: nat)
    requires CollisionFree(w)
    requires IsRun(w, c, run)
    requires n < |run| && run[n].phase.Returned?
    requires var s := run[n].phase.s;
             && s.captured < |run| && 0 <= s.info.height < |run[s.captured].node.chain|
             && ReadsHitAnchor(run, s)
    ensures LooksUpInAnchor(run, run[n].phase.s)
  {
    hide CollisionFree, IsRun, ActionIn, ReadsHitAnchor;
    ReadsAreAnchorBlocksIff(w, c, run, n);
  }

  /** At time `t` the scanner was healthy, at the height of the anchor chain and on its last block. */
  ghost predicate ScannerOnAnchorChain(w: World, run: seq<State>, t: nat, s: Session)
    requires s.captured < |run| && 0 <= s.info.height < |run[s.captured].node.chain|
  {
    && t < |run| && run[t].scanner.ok
    && run[t].scanner.height == Some(s.info.height)
    && run[t].scanner.hash == Some(w.hash(AnchorChain(run, s)))
  }

  /**
   * In scanner-backed mode each action lookup answers as it would in the anchor snapshot if
   * abandoned blocks stayed abandoned, and in every case the scanner stood at the anchor when the
   * notes were first listed and again after they were rechecked.
   */
  lemma LookupsAreFromOneSnapshot(w: World, c: Config, run: seq<State>, n: nat)
    requires CollisionFree(w)
    requires IsRun(w, c, run)
    requires n < |run| && run[n].phase.Returned?
    requires c.mode.ScannerBacked?
    ensures var Returned(s, expiry, closed, scanned, confirmed) := run[n].phase;
            && s.captured <= s.since <= closed <= scanned <= n
            && 0 <= s.info.height < |run[s.captured].node.chain|
            && ScannerOnAnchorChain(w, run, s.since, s) && ScannerOnAnchorChain(w, run, scanned, s)
            && (AbandonedStaysAbandoned(run) ==> LooksUpInAnchor(run, s))
  {
    hide CollisionFree, IsRun, AbandonedStaysAbandoned, ReadsHitAnchor, LooksUpInAnchor;
    ReturnedSession(w, c, run, n);
    if AbandonedStaysAbandoned(run) {
      StableChainIsHit(w, c, run, n);
      HitsLookUpInAnchor(w, c, run, n);
    }
  }

  /** The context check bounds the drift: the tip advanced at most the expiry offset less three. */
  lemma ReturnedPlanIsStillMineable(w: World, c: Config, run: seq<State>, n: nat)
    requires CollisionFree(w)
    requires IsRun(w, c, run)
    requires n < |run| && run[n].phase.Returned?
    ensures var Returned(s, expiry, closed, scanned, confirmed) := run[n].phase;
            && confirmed <= n
            && expiry == s.info.height + 1 + c.expiryOffset
            && var now := run[confirmed].node;
               && now.network == s.info.network && now.branch == s.info.branch
               && 0 <= |now.chain| - 1 - s.info.height <= c.expiryOffset - 3
  {
    hide CollisionFree, IsRun, SessionHolds, MayPlan;
    RunKeepsInv(w, c, run, n);
  }
}
