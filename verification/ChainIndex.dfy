/**
 * The index of Orchard actions over the whole chain, and the per-block lookup with a cache that
 * serves the scanner-backed planners instead.
 */
module ChainIndex {
  import opened Machine
  import opened NoteIds

  const COMPACT_CIPHERTEXT_LENGTH: int := 104

  datatype Action = Action(nullifier: string, cmx: string, ephemeralKey: string, encCiphertext: string)
  datatype Tx = Tx(txid: string, actions: seq<Action>)
  datatype Block = Block(txs: seq<Tx>)

  datatype IndexedAction = IndexedAction(txid: string, index: uint32, position: uint32, action: Action)
  datatype OrchardIndex = OrchardIndex(cmxs: seq<string>, byOutpoint: map<string, IndexedAction>)

  // ----- encodings -----

  predicate IsHexDigit(c: char) {
    '0' <= c <= '9' || 'a' <= c <= 'f' || 'A' <= c <= 'F'
  }

  predicate DecodesAsHex(s: string): (ok: bool)
    ensures ok ==> |s| % 2 == 0
  {
    |s| % 2 == 0 && forall c :: c in s ==> IsHexDigit(c)
  }

  predicate Is32ByteHex(s: string) {
    |s| == 64 && DecodesAsHex(s)
  }

  predicate WellEncoded(a: Action) {
    && Is32ByteHex(a.cmx) && Is32ByteHex(a.nullifier) && Is32ByteHex(a.ephemeralKey)
    && |a.encCiphertext| >= COMPACT_CIPHERTEXT_LENGTH
    && DecodesAsHex(a.encCiphertext[..COMPACT_CIPHERTEXT_LENGTH])
  }

  function Compact(a: Action): Action
    requires WellEncoded(a)
  {
    a.(encCiphertext := a.encCiphertext[..COMPACT_CIPHERTEXT_LENGTH])
  }

  /** `k` has the nullifier, commitment and ephemeral key of `a`, and the first 104 digits of its ciphertext. */
  ghost predicate Shortens(k: Action, a: Action) {
    && k.nullifier == a.nullifier && k.cmx == a.cmx && k.ephemeralKey == a.ephemeralKey
    && |k.encCiphertext| == 104 && k.encCiphertext <= a.encCiphertext
  }

  lemma ShortensIffCompact(k: Action, a: Action)
    requires WellEncoded(a)
    ensures Shortens(k, a) <==> k == Compact(a)
  {
    if Shortens(k, a) {
      assert k.encCiphertext == a.encCiphertext[..104];
    }
  }

  ghost predicate HexOf(s: string, n: nat) {
    |s| == n && forall c :: c in s ==> '0' <= c <= '9' || 'a' <= c <= 'f' || 'A' <= c <= 'F'
  }

  /** Three fields of 32 bytes in hex, and a ciphertext that starts with 52 bytes in hex. */
  ghost predicate Encodes(a: Action) {
    && HexOf(a.nullifier, 64) && HexOf(a.cmx, 64) && HexOf(a.ephemeralKey, 64)
    && |a.encCiphertext| >= 104 && HexOf(a.encCiphertext[..104], 104)
  }

  lemma WellEncodedIffEncodes(a: Action)
    ensures WellEncoded(a) <==> Encodes(a)
  {
  }

  predicate TxBuildable(t: Tx) {
    t.txid != "" && forall a :: a in t.actions ==> WellEncoded(a)
  }

  // ----- chain order -----

  /** An action at its place: the `i`-th action of the transaction `txid`. */
  datatype Entry = Entry(txid: string, i: nat, action: Action) {
    function Key(): string {
      NoteId(txid, i)
    }
  }

  function TxEntries(t: Tx, n: nat): (es: seq<Entry>)
    requires n <= |t.actions|
    ensures |es| == n && forall i :: 0 <= i < n ==> es[i] == Entry(t.txid, i, t.actions[i])
  {
    seq(n, i requires 0 <= i < n => Entry(t.txid, i, t.actions[i]))
  }

  function Txs(blocks: seq<Block>): seq<Tx> {
    if blocks == [] then [] else Txs(blocks[..|blocks| - 1]) + blocks[|blocks| - 1].txs
  }

  function Entries(txs: seq<Tx>): seq<Entry> {
    if txs == [] then
      []
    else
      var last := txs[|txs| - 1];
      Entries(txs[..|txs| - 1]) + TxEntries(last, |last.actions|)
  }

  lemma NothingYet()
    ensures Txs([]) == [] && Entries([]) == []
  {
  }

  lemma TxsSnoc(blocks: seq<Block>, b: Block)
    ensures Txs(blocks + [b]) == Txs(blocks) + b.txs
  {
    assert (blocks + [b])[..|blocks|] == blocks;
  }

  lemma EntriesSnoc(txs: seq<Tx>, t: Tx)
    ensures Entries(txs + [t]) == Entries(txs) + TxEntries(t, |t.actions|)
  {
    assert (txs + [t])[..|txs|] == txs;
  }

  predicate Buildable(txs: seq<Tx>) {
    forall t :: t in txs ==> TxBuildable(t)
  }

  ghost predicate EntriesWellEncoded(es: seq<Entry>) {
    forall k :: 0 <= k < |es| ==> WellEncoded(es[k].action)
  }

  /** The index after the given actions: the position counter and the action index are 32 bits wide. */
  function IndexOf(es: seq<Entry>): OrchardIndex
    requires EntriesWellEncoded(es)
  {
    if es == [] then
      OrchardIndex([], map[])
    else
      var n, e := |es| - 1, es[|es| - 1];
      var before := IndexOf(es[..n]);
      var act := IndexedAction(e.txid, e.i % TWO32, n % TWO32, Compact(e.action));
      OrchardIndex(before.cmxs + [e.action.cmx], before.byOutpoint[e.Key() := act])
  }

  lemma IndexOfNothing()
    ensures IndexOf([]) == OrchardIndex([], map[])
  {
  }

  lemma IndexSnoc(es: seq<Entry>, e: Entry)
    requires EntriesWellEncoded(es) && WellEncoded(e.action)
    ensures EntriesWellEncoded(es + [e])
    ensures var before := IndexOf(es);
            var act := IndexedAction(e.txid, e.i % TWO32, |es| % TWO32, Compact(e.action));
            IndexOf(es + [e]) == OrchardIndex(before.cmxs + [e.action.cmx], before.byOutpoint[e.Key() := act])
  {
    assert (es + [e])[..|es|] == es;
  }

  lemma {:induction false} EntryOf(txs: seq<Tx>, e: Entry)
    ensures e in Entries(txs) <==>
              exists t :: t in txs && t.txid == e.txid && e.i < |t.actions| && e.action == t.actions[e.i]
  {
    if txs != [] {
      var last := txs[|txs| - 1];
      EntryOf(txs[..|txs| - 1], e);
      assert txs == txs[..|txs| - 1] + [last];
      assert e in TxEntries(last, |last.actions|) <==>
               last.txid == e.txid && e.i < |last.actions| && e.action == last.actions[e.i] by {
        if last.txid == e.txid && e.i < |last.actions| && e.action == last.actions[e.i] {
          assert TxEntries(last, |last.actions|)[e.i] == e;
        }
      }
    }
  }

  lemma BuildableIsWellEncoded(txs: seq<Tx>)
    requires Buildable(txs)
    ensures EntriesWellEncoded(Entries(txs))
  {
    forall k | 0 <= k < |Entries(txs)|
      ensures WellEncoded(Entries(txs)[k].action)
    {
      EntryOf(txs, Entries(txs)[k]);
    }
  }

  // ----- building the index -----

  /** The index of a chain, if every transaction id and action in it passes the checks. */
  function BuildIndex(blocks: seq<Block>): Option<OrchardIndex> {
    if Buildable(Txs(blocks)) then
      BuildableIsWellEncoded(Txs(blocks));
      Some(IndexOf(Entries(Txs(blocks))))
    else
      None
  }

  lemma NextEntry(t: Tx, i: nat, n: nat)
    requires i < |t.actions|
    ensures TxEntries(t, i + 1) == TxEntries(t, i) + [Entry(t.txid, i, t.actions[i])]
    ensures (n % TWO32 + 1) % TWO32 == (n + 1) % TWO32
  {
  }

  /** The innermost loop: one transaction appended to the index built so far. */
  method IndexTx(before: OrchardIndex, ghost es: seq<Entry>, start: uint32, t: Tx)
    returns (out: OrchardIndex, pos: uint32, ok: bool)
    requires EntriesWellEncoded(es) && before == IndexOf(es) && start == |es| % TWO32
    ensures ok <==> TxBuildable(t)
    ensures ok ==>
              var all := es + TxEntries(t, |t.actions|);
              EntriesWellEncoded(all) && out == IndexOf(all) && pos == |all| % TWO32
  {
    hide IndexOf, WellEncoded, NoteId, Compact, EntriesWellEncoded, TxEntries;
    out, pos := before, start;
    if t.txid == "" {
      return out, pos, false;
    }
    ghost var done := es;
    assert done == es + TxEntries(t, 0);
    for i := 0 to |t.actions|
      invariant done == es + TxEntries(t, i)
      invariant EntriesWellEncoded(done)
      invariant out == IndexOf(done)
      invariant pos == |done| % TWO32
      invariant forall k :: 0 <= k < i ==> WellEncoded(t.actions[k])
    {
      var a := t.actions[i];
      if !WellEncoded(a) {
        assert a in t.actions;
        return out, pos, false;
      }
      IndexSnoc(done, Entry(t.txid, i, a));
      NextEntry(t, i, |done|);
      out := OrchardIndex(
        out.cmxs + [a.cmx],
        out.byOutpoint[NoteId(t.txid, i) := IndexedAction(t.txid, i % TWO32, pos, Compact(a))]);
      pos := (pos + 1) % TWO32;
      done := done + [Entry(t.txid, i, a)];
      assert done == es + TxEntries(t, i + 1);
    }
    return out, pos, true;
  }

  /** The two outer loops, over the replies for the heights from zero upwards. */
  method BuildOrchardIndex(blocks: seq<Block>) returns (r: Option<OrchardIndex>)
    ensures r == BuildIndex(blocks)
  {
    hide IndexOf, TxBuildable, Txs, Entries;
    NothingYet();
    IndexOfNothing();
    var out, pos: uint32 := OrchardIndex([], map[]), 0;
    ghost var txs: seq<Tx> := [];
    for h := 0 to |blocks|
      invariant txs == Txs(blocks[..h])
      invariant Covers(out, pos, txs)
    {
      var blk := blocks[h];
      assert blocks[..h + 1] == blocks[..h] + [blk];
      TxsSnoc(blocks[..h], blk);
      for j := 0 to |blk.txs|
        invariant txs == Txs(blocks[..h]) + blk.txs[..j]
        invariant Covers(out, pos, txs)
      {
        var t, ok := blk.txs[j], true;
        out, pos, ok := IndexTx(out, Entries(txs), pos, t);
        if !ok {
          assert t in Txs(blocks[..h + 1]);
          TxsPrefix(blocks, h + 1);
          return None;
        }
        EntriesSnoc(txs, t);
        txs := txs + [t];
      }
      assert blk.txs[..|blk.txs|] == blk.txs;
    }
    assert blocks[..|blocks|] == blocks;
    return Some(out);
  }

  /** The index and the position counter after the given transactions. */
  ghost predicate Covers(out: OrchardIndex, pos: uint32, txs: seq<Tx>) {
    && Buildable(txs)
    && EntriesWellEncoded(Entries(txs)) && out == IndexOf(Entries(txs)) && pos == |Entries(txs)| % TWO32
  }

  /** The index builds exactly when every transaction has an id and every action in it is encoded in full. */
  lemma IndexBuildsIff(blocks: seq<Block>)
    ensures BuildIndex(blocks).Some? <==>
              forall h, t :: 0 <= h < |blocks| && t in blocks[h].txs ==>
                t.txid != "" && forall a :: a in t.actions ==> Encodes(a)
  {
    hide Txs, Entries, IndexOf, WellEncoded, Encodes;
    forall h | 0 <= h < |blocks|
      ensures forall t :: t in blocks[h].txs ==> t in Txs(blocks)
    {
      BlockIsInChain(blocks, h);
    }
    forall t | t in Txs(blocks)
      ensures exists h :: 0 <= h < |blocks| && t in blocks[h].txs
    {
      var h := BlockOfTx(blocks, t);
    }
    forall a: Action
      ensures WellEncoded(a) <==> Encodes(a)
    {
      WellEncodedIffEncodes(a);
    }
  }

  lemma {:induction false} TxsPrefix(blocks: seq<Block>, h: nat)
    requires h <= |blocks|
    ensures forall t :: t in Txs(blocks[..h]) ==> t in Txs(blocks)
    decreases |blocks|
  {
    if h == |blocks| {
      assert blocks[..h] == blocks;
    } else {
      var front := blocks[..|blocks| - 1];
      TxsPrefix(front, h);
      assert front[..h] == blocks[..h];
    }
  }

  lemma BlockIsInChain(blocks: seq<Block>, h: nat)
    requires h < |blocks|
    ensures forall t :: t in blocks[h].txs ==> t in Txs(blocks)
  {
    TxsPrefix(blocks, h + 1);
    assert blocks[..h + 1][..h] == blocks[..h];
  }

  // ----- what the index says -----

  /** An indexed action is the one at its position, under the key of that position. */
  ghost predicate Located(es: seq<Entry>, key: string, a: IndexedAction) {
    && a.position < |es|
    && WellEncoded(es[a.position].action)
    && key == es[a.position].Key()
    && Shortens(a.action, es[a.position].action)
    && a.txid == es[a.position].txid
    && a.index == es[a.position].i % TWO32
    && forall k :: a.position < k < |es| ==> es[k].Key() != key
  }

  /**
   * The index invariant: the commitments are in chain order; every outpoint of the chain has an
   * entry; and an entry sits at the last position with its key and holds the action found there.
   */
  lemma {:induction false} IndexIsLocated(es: seq<Entry>)
    requires EntriesWellEncoded(es)
    requires |es| <= TWO32
    ensures var ix := IndexOf(es);
            && |ix.cmxs| == |es|
            && (forall k :: 0 <= k < |es| ==> ix.cmxs[k] == es[k].action.cmx)
            && (forall k :: 0 <= k < |es| ==> es[k].Key() in ix.byOutpoint)
            && forall key :: key in ix.byOutpoint ==> Located(es, key, ix.byOutpoint[key])
  {
    hide NoteId, WellEncoded, Located, IndexOf;
    if es == [] {
      IndexOfNothing();
    } else {
      var e, front := es[|es| - 1], es[..|es| - 1];
      IndexIsLocated(front);
      IndexSnoc(front, e);
      assert es == front + [e];
      var before, ix := IndexOf(front), IndexOf(es);
      forall key | key in ix.byOutpoint
        ensures Located(es, key, ix.byOutpoint[key])
      {
        LocatedAfter(front, e, key, if key == e.Key() then ix.byOutpoint[key] else before.byOutpoint[key]);
      }
    }
  }

  lemma LocatedAfter(front: seq<Entry>, e: Entry, key: string, a: IndexedAction)
    requires WellEncoded(e.action)
    requires if key == e.Key()
             then |front| < TWO32 && a == IndexedAction(e.txid, e.i % TWO32, |front|, Compact(e.action))
             else Located(front, key, a)
    ensures Located(front + [e], key, a)
  {
    hide NoteId, WellEncoded, Shortens, Compact;
    if key == e.Key() {
      ShortensIffCompact(a.action, e.action);
    }
  }

  /** Commitment tree and outpoint map agree, and no two outpoints share a position. */
  lemma IndexAgreesWithTree(blocks: seq<Block>, key: string, key': string)
    requires BuildIndex(blocks).Some?
    requires |Entries(Txs(blocks))| <= TWO32
    requires var m := BuildIndex(blocks).value.byOutpoint; key in m && key' in m
    ensures var ix := BuildIndex(blocks).value;
            var a, a' := ix.byOutpoint[key], ix.byOutpoint[key'];
            && a.position < |ix.cmxs| && ix.cmxs[a.position] == a.action.cmx
            && (key != key' ==> a.position != a'.position)
  {
    BuildableIsWellEncoded(Txs(blocks));
    IndexIsLocated(Entries(Txs(blocks)));
  }

  ghost predicate UniqueTxids(txs: seq<Tx>) {
    forall i, j :: 0 <= i < j < |txs| ==> txs[i].txid != txs[j].txid
  }

  lemma {:induction false} KeysAreDistinct(txs: seq<Tx>)
    requires UniqueTxids(txs)
    ensures var es := Entries(txs); forall i, j :: 0 <= i < j < |es| ==> es[i].Key() != es[j].Key()
  {
    if txs != [] {
      var n, last := |txs| - 1, txs[|txs| - 1];
      var front, es := Entries(txs[..n]), Entries(txs);
      KeysAreDistinct(txs[..n]);
      forall i, j | 0 <= i < j < |es| && |front| <= j
        ensures es[i].Key() != es[j].Key()
      {
        if i < |front| {
          EntryOf(txs[..n], front[i]);
        }
        if es[i].Key() == es[j].Key() {
          NoteIdIsInjective(es[i].txid, es[i].i, es[j].txid, es[j].i);
        }
      }
      forall i, j | 0 <= i < j < |front|
        ensures es[i].Key() != es[j].Key()
      {
        assert es[i] == front[i] && es[j] == front[j];
      }
    }
  }

  /** With unique transaction ids the position of an action is the number of actions before it. */
  lemma PositionIsRank(blocks: seq<Block>, k: nat)
    requires BuildIndex(blocks).Some?
    requires UniqueTxids(Txs(blocks))
    requires k < |Entries(Txs(blocks))| <= TWO32
    ensures var e := Entries(Txs(blocks))[k];
            e.Key() in BuildIndex(blocks).value.byOutpoint
            && BuildIndex(blocks).value.byOutpoint[e.Key()].position == k
  {
    hide Entries, Txs, IndexOf;
    BuildableIsWellEncoded(Txs(blocks));
    var es := Entries(Txs(blocks));
    IndexIsLocated(es);
    KeysAreDistinct(Txs(blocks));
    assert Located(es, es[k].Key(), IndexOf(es).byOutpoint[es[k].Key()]);
  }

  // ----- the cached per-block lookup -----

  datatype Lookup = Found(action: Action) | NotFound

  /** The first transaction with the id decides; its action must exist and be well encoded. */
  function ActionIn(txs: seq<Tx>, txid: string, index: uint32): Lookup {
    if txs == [] then
      NotFound
    else if txs[0].txid != txid then
      ActionIn(txs[1..], txid, index)
    else if index < |txs[0].actions| && WellEncoded(txs[0].actions[index]) then
      Found(Compact(txs[0].actions[index]))
    else
      NotFound
  }

  function LookupAt(blocks: seq<Block>, height: int, txid: string, index: uint32): Lookup {
    if 0 <= height < |blocks| then ActionIn(blocks[height].txs, txid, index) else NotFound
  }

  class BlockCache {
    var blocks: map<int, Block>

    /** Everything cached is a block of the chain. */
    ghost predicate Holds(chain: seq<Block>)
      reads this
    {
      forall h :: h in blocks ==> 0 <= h < |chain| && blocks[h] == chain[h]
    }

    constructor ()
      ensures blocks == map[]
    {
      blocks := map[];
    }

    /** Answers as a lookup in the chain would, whatever was asked before. */
    method OrchardActionForNote(chain: seq<Block>, height: int, txid: string, index: uint32) returns (r: Lookup)
      requires Holds(chain)
      modifies this
      ensures Holds(chain)
      ensures r == LookupAt(chain, height, txid, index)
      ensures blocks == if 0 <= height < |chain| then old(blocks)[height := chain[height]] else old(blocks)
    {
      if height !in blocks {
        if height < 0 || height >= |chain| {
          return NotFound;
        }
        blocks := blocks[height := chain[height]];
      }
      var txs := blocks[height].txs;
      var j := 0;
      while j < |txs|
        invariant 0 <= j <= |txs|
        invariant ActionIn(txs, txid, index) == ActionIn(txs[j..], txid, index)
      {
        var t := txs[j];
        assert txs[j..][1..] == txs[j + 1..];
        if t.txid != txid {
          j := j + 1;
          continue;
        }
        if index >= |t.actions| || !WellEncoded(t.actions[index]) {
          return NotFound;
        }
        return Found(Compact(t.actions[index]));
      }
      return NotFound;
    }
  }

  /** A note's place on the chain as the scanner reports it. */
  datatype Place = Place(height: int, txid: string, index: uint32)

  /**
   * The scanner-backed planners' loop over the selected notes with one fresh cache: all lookups
   * succeed exactly when each would on its own, and give the same actions.
   */
  method ActionsForNotes(chain: seq<Block>, places: seq<Place>) returns (r: Option<seq<Action>>)
    ensures r.Some? <==> forall p :: p in places ==> LookupAt(chain, p.height, p.txid, p.index).Found?
    ensures r.Some? ==> |r.value| == |places| && forall i :: 0 <= i < |places| ==>
              LookupAt(chain, places[i].height, places[i].txid, places[i].index) == Found(r.value[i])
  {
    hide LookupAt;
    var blockCache := new BlockCache();
    var actions: seq<Action> := [];
    for i := 0 to |places|
      invariant blockCache.Holds(chain)
      invariant |actions| == i
      invariant forall k :: 0 <= k < i ==>
                  LookupAt(chain, places[k].height, places[k].txid, places[k].index) == Found(actions[k])
    {
      var p := places[i];
      var act := blockCache.OrchardActionForNote(chain, p.height, p.txid, p.index);
      if act == NotFound {
        assert p in places;
        return None;
      }
      actions := actions + [act.action];
    }
    return Some(actions);
  }

  lemma {:induction false} ActionInFinds(txs: seq<Tx>, t: Tx, index: uint32)
    requires t in txs
    requires forall u :: u in txs && u.txid == t.txid ==> u == t
    ensures ActionIn(txs, t.txid, index) ==
              if index < |t.actions| && WellEncoded(t.actions[index])
              then Found(Compact(t.actions[index])) else NotFound
  {
    if txs[0].txid != t.txid {
      assert txs == [txs[0]] + txs[1..];
      ActionInFinds(txs[1..], t, index);
    } else {
      assert txs[0] in txs;
    }
  }

  lemma {:induction false} FoundTx(txs: seq<Tx>, txid: string, index: uint32) returns (t: Tx)
    requires ActionIn(txs, txid, index).Found?
    ensures t in txs && t.txid == txid && index < |t.actions|
  {
    if txs[0].txid == txid {
      t := txs[0];
    } else {
      t := FoundTx(txs[1..], txid, index);
    }
  }

  /** The first transaction with the id is number `j`, its action is encoded in full, and `k` shortens it. */
  ghost predicate FindsAt(txs: seq<Tx>, txid: string, index: uint32, k: Action, j: nat) {
    && j < |txs| && txs[j].txid == txid && (forall i :: 0 <= i < j ==> txs[i].txid != txid)
    && index < |txs[j].actions| && Encodes(txs[j].actions[index]) && Shortens(k, txs[j].actions[index])
  }

  /** What a lookup among the transactions of a block finds. */
  lemma {:induction false} ActionInFindsIff(txs: seq<Tx>, txid: string, index: uint32, k: Action)
    ensures ActionIn(txs, txid, index) == Found(k) <==> exists j: nat :: FindsAt(txs, txid, index, k, j)
  {
    if txs != [] && txs[0].txid == txid {
      FirstTxFindsIff(txs, txid, index, k);
    } else if txs != [] {
      ActionInFindsIff(txs[1..], txid, index, k);
      forall j: nat | FindsAt(txs[1..], txid, index, k, j)
        ensures FindsAt(txs, txid, index, k, j + 1)
      {
        assert forall i :: 0 < i < j + 1 ==> txs[i] == txs[1..][i - 1];
      }
      forall j: nat | FindsAt(txs, txid, index, k, j)
        ensures j > 0 && FindsAt(txs[1..], txid, index, k, j - 1)
      {
        assert j > 0 && txs[1..][j - 1] == txs[j];
        assert forall i :: 0 <= i < j - 1 ==> txs[1..][i] == txs[i + 1];
      }
    }
  }

  /** What a lookup at a height finds: nothing past the chain, else the action its block decides. */
  lemma LookupFindsIff(blocks: seq<Block>, height: int, txid: string, index: uint32, k: Action)
    ensures LookupAt(blocks, height, txid, index) == Found(k) <==>
              0 <= height < |blocks| && exists j: nat :: FindsAt(blocks[height].txs, txid, index, k, j)
  {
    hide ActionIn, FindsAt;
    if 0 <= height < |blocks| {
      ActionInFindsIff(blocks[height].txs, txid, index, k);
    }
  }

  lemma FirstTxFindsIff(txs: seq<Tx>, txid: string, index: uint32, k: Action)
    requires txs != [] && txs[0].txid == txid
    ensures ActionIn(txs, txid, index) == Found(k) <==> exists j: nat :: FindsAt(txs, txid, index, k, j)
  {
    hide WellEncoded, Encodes, Shortens, Compact;
    assert forall j: nat :: FindsAt(txs, txid, index, k, j) ==> j == 0;
    if index < |txs[0].actions| {
      WellEncodedIffEncodes(txs[0].actions[index]);
      if WellEncoded(txs[0].actions[index]) {
        ShortensIffCompact(k, txs[0].actions[index]);
      }
    }
    assert ActionIn(txs, txid, index) == Found(k) <==> FindsAt(txs, txid, index, k, 0);
  }

  lemma UniqueTx(txs: seq<Tx>, t: Tx, u: Tx)
    requires UniqueTxids(txs) && t in txs && u in txs && t.txid == u.txid
    ensures t == u
  {
  }

  /** The index entry of an action that is on the chain. */
  lemma IndexHolds(blocks: seq<Block>, t: Tx, index: uint32)
    requires BuildIndex(blocks).Some?
    requires UniqueTxids(Txs(blocks)) && |Entries(Txs(blocks))| <= TWO32
    requires t in Txs(blocks) && index < |t.actions|
    ensures var m, key := BuildIndex(blocks).value.byOutpoint, NoteId(t.txid, index);
            key in m && WellEncoded(t.actions[index]) && m[key].action == Compact(t.actions[index])
  {
    hide Entries, Txs, IndexOf, NoteId;
    var txs, e := Txs(blocks), Entry(t.txid, index, t.actions[index]);
    var es := Entries(txs);
    EntryOf(txs, e);
    BuildableIsWellEncoded(txs);
    IndexIsLocated(es);
    var k :| 0 <= k < |es| && es[k] == e;
    var a := IndexOf(es).byOutpoint[e.Key()];
    assert Located(es, e.Key(), a);
    KeysAreDistinct(txs);
    assert a.position == k;
    ShortensIffCompact(a.action, e.action);
  }

  /**
   * The two lookups agree: on a chain with unique transaction ids whose index builds, the block
   * lookup finds an action at some height exactly when the index has its outpoint, and returns
   * the same nullifier, commitment, ephemeral key and truncated ciphertext.
   */
  lemma LookupsAgree(blocks: seq<Block>, txid: string, index: uint32)
    requires BuildIndex(blocks).Some?
    requires UniqueTxids(Txs(blocks)) && |Entries(Txs(blocks))| <= TWO32
    ensures var m, key := BuildIndex(blocks).value.byOutpoint, NoteId(txid, index);
            && (forall h :: LookupAt(blocks, h, txid, index).Found? ==>
                  key in m && LookupAt(blocks, h, txid, index) == Found(m[key].action))
            && (key in m ==> exists h :: LookupAt(blocks, h, txid, index) == Found(m[key].action))
  {
    var m, key := BuildIndex(blocks).value.byOutpoint, NoteId(txid, index);
    forall h | LookupAt(blocks, h, txid, index).Found?
      ensures key in m && LookupAt(blocks, h, txid, index) == Found(m[key].action)
    {
      LookupIsIndexed(blocks, h, txid, index);
    }
    if key in m {
      var h := IndexedIsFound(blocks, txid, index);
    }
  }

  lemma LookupIsIndexed(blocks: seq<Block>, h: int, txid: string, index: uint32)
    requires BuildIndex(blocks).Some?
    requires UniqueTxids(Txs(blocks)) && |Entries(Txs(blocks))| <= TWO32
    requires LookupAt(blocks, h, txid, index).Found?
    ensures var m, key := BuildIndex(blocks).value.byOutpoint, NoteId(txid, index);
            key in m && LookupAt(blocks, h, txid, index) == Found(m[key].action)
  {
    hide Entries, IndexOf, NoteId, ActionIn, Txs, BuildIndex;
    var t := FoundTx(blocks[h].txs, txid, index);
    BlockIsInChain(blocks, h);
    IndexHolds(blocks, t, index);
    forall u | u in blocks[h].txs && u.txid == t.txid
      ensures u == t
    {
      UniqueTx(Txs(blocks), t, u);
    }
    ActionInFinds(blocks[h].txs, t, index);
  }

  lemma {:induction false} BlockOfTx(blocks: seq<Block>, t: Tx) returns (h: nat)
    requires t in Txs(blocks)
    ensures h < |blocks| && t in blocks[h].txs
  {
    if t in blocks[|blocks| - 1].txs {
      h := |blocks| - 1;
    } else {
      h := BlockOfTx(blocks[..|blocks| - 1], t);
    }
  }

  lemma IndexedIsFound(blocks: seq<Block>, txid: string, index: uint32) returns (h: nat)
    requires BuildIndex(blocks).Some?
    requires UniqueTxids(Txs(blocks)) && |Entries(Txs(blocks))| <= TWO32
    requires NoteId(txid, index) in BuildIndex(blocks).value.byOutpoint
    ensures var m, key := BuildIndex(blocks).value.byOutpoint, NoteId(txid, index);
            LookupAt(blocks, h, txid, index) == Found(m[key].action)
  {
    hide Entries, IndexOf, NoteId, ActionIn, Txs;
    var txs, key := Txs(blocks), NoteId(txid, index);
    var es := Entries(txs);
    BuildableIsWellEncoded(txs);
    IndexIsLocated(es);
    var a := IndexOf(es).byOutpoint[key];
    assert Located(es, key, a);
    var e := es[a.position];
    NoteIdIsInjective(txid, index, e.txid, e.i);
    EntryOf(txs, e);
    var t :| t in txs && t.txid == e.txid && e.i < |t.actions| && e.action == t.actions[e.i];
    h := BlockOfTx(blocks, t);
    BlockIsInChain(blocks, h);
    forall u | u in blocks[h].txs && u.txid == t.txid
      ensures u == t
    {
      UniqueTx(txs, t, u);
    }
    ActionInFinds(blocks[h].txs, t, index);
  }
}
