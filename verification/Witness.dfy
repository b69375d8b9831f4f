/**
 * Merkle witnesses for the selected notes: the streaming loop that creates a witness when its
 * leaf arrives and extends it with every later leaf.
 */
module Witness {
  import opened Machine

  const DEPTH: nat := 32
  const MAX_POSITIONS: int := 1000

  /** Digests are only ever compared and handed to the node hash. */
  type Digest = int

  /** The parts of the note commitment tree that are not visible: decoding and the node hash. */
  datatype Scheme = Scheme(decode: string -> Option<Digest>, combine: (nat, Digest, Digest) -> Digest,
                           uncommitted: Digest)
  {
    /** The root of an empty subtree of height `l`. */
    function Empty(l: nat): Digest {
      if l == 0 then uncommitted else combine(l - 1, Empty(l - 1), Empty(l - 1))
    }

    /** Node `i` of a layer; beyond the filled part every node is an empty root. */
    function Node(layer: seq<Digest>, l: nat, i: nat): Digest {
      if i < |layer| then layer[i] else Empty(l)
    }

    function NextLayer(layer: seq<Digest>, l: nat): seq<Digest> {
      seq((|layer| + 1) / 2, (i: int) requires i >= 0 => combine(l, Node(layer, l, 2 * i), Node(layer, l, 2 * i + 1)))
    }

    function RootFrom(layer: seq<Digest>, l: nat, d: nat): Digest
      decreases d
    {
      if d == 0 then Node(layer, l, 0) else RootFrom(NextLayer(layer, l), l + 1, d - 1)
    }

    /** The siblings on the way from node `pos` of layer `l` up `d` layers. */
    function PathFrom(layer: seq<Digest>, l: nat, pos: nat, d: nat): (path: seq<Digest>)
      ensures |path| == d
      decreases d
    {
      if d == 0 then
        []
      else
        var sibling := if pos % 2 == 0 then pos + 1 else pos - 1;
        [Node(layer, l, sibling)] + PathFrom(NextLayer(layer, l), l + 1, pos / 2, d - 1)
    }

    /** What a verifier computes from a leaf, its position and an authentication path. */
    function Open(node: Digest, l: nat, pos: nat, path: seq<Digest>): Digest
      decreases |path|
    {
      if path == [] then
        node
      else
        var parent := if pos % 2 == 0 then combine(l, node, path[0]) else combine(l, path[0], node);
        Open(parent, l + 1, pos / 2, path[1..])
    }

    function Root(leaves: seq<Digest>): Digest {
      RootFrom(leaves, 0, DEPTH)
    }

    function AuthPath(leaves: seq<Digest>, pos: nat): seq<Digest> {
      PathFrom(leaves, 0, pos, DEPTH)
    }

    /** A parent is the hash of its children everywhere, also in the unfilled part. */
    lemma ParentOfChildren(layer: seq<Digest>, l: nat, i: nat)
      ensures Node(NextLayer(layer, l), l + 1, i) == combine(l, Node(layer, l, 2 * i), Node(layer, l, 2 * i + 1))
    {
    }

    lemma {:induction false} PathOpens(layer: seq<Digest>, l: nat, pos: nat, d: nat)
      requires pos < Pow2(d)
      ensures Open(Node(layer, l, pos), l, pos, PathFrom(layer, l, pos, d)) == RootFrom(layer, l, d)
      decreases d
    {
      hide Node, NextLayer, Empty;
      if d > 0 {
        var next, parent := NextLayer(layer, l), pos / 2;
        ParentOfChildren(layer, l, parent);
        PathOpens(next, l + 1, parent, d - 1);
        var path := PathFrom(layer, l, pos, d);
        assert path[1..] == PathFrom(next, l + 1, parent, d - 1);
        assert Open(Node(layer, l, pos), l, pos, path) == Open(Node(next, l + 1, parent), l + 1, parent, path[1..]);
      }
    }

    /** The node hash never maps two pairs of children to one parent. */
    ghost predicate Injective() {
      forall l, a, b, c, d :: combine(l, a, b) == combine(l, c, d) ==> a == c && b == d
    }

    /** With an injective node hash a path opens only the leaf that is there, and only the tree's own path does. */
    lemma {:induction false} OnlyTheTreePathOpens(layer: seq<Digest>, l: nat, pos: nat, node: Digest, path: seq<Digest>)
      requires Injective()
      requires pos < Pow2(|path|)
      ensures Open(node, l, pos, path) == RootFrom(layer, l, |path|) <==>
                node == Node(layer, l, pos) && path == PathFrom(layer, l, pos, |path|)
      decreases |path|
    {
      hide Node, NextLayer, Empty;
      if path != [] {
        var next, parent := NextLayer(layer, l), pos / 2;
        ParentOfChildren(layer, l, parent);
        var up := if pos % 2 == 0 then combine(l, node, path[0]) else combine(l, path[0], node);
        OnlyTheTreePathOpens(next, l + 1, parent, up, path[1..]);
        assert Open(node, l, pos, path) == Open(up, l + 1, parent, path[1..]);
        var tree := PathFrom(layer, l, pos, |path|);
        assert tree[1..] == PathFrom(next, l + 1, parent, |path| - 1);
        assert path == tree <==> path[0] == tree[0] && path[1..] == tree[1..] by {
          assert path == [path[0]] + path[1..] && tree == [tree[0]] + tree[1..];
        }
      }
    }

    function Decode(cmxs: seq<string>): Option<seq<Digest>> {
      if cmxs == [] then
        Some([])
      else
        match (Decode(cmxs[..|cmxs| - 1]), decode(cmxs[|cmxs| - 1]))
        case (Some(front), Some(last)) => Some(front + [last])
        case _ => None
    }
  }

  function Pow2(d: nat): nat {
    if d == 0 then 1 else 2 * Pow2(d - 1)
  }

  lemma CapacityIsTwo32()
    ensures Pow2(DEPTH) == TWO32
  {
    assert Pow2(8) == 0x100 && Pow2(16) == 0x1_0000 && Pow2(24) == 0x100_0000;
  }

  // ----- the unfilled part -----

  /** Two layers that agree at every node, filled or not. */
  ghost predicate SameNodes(s: Scheme, a: seq<Digest>, b: seq<Digest>, l: nat) {
    forall i: nat :: s.Node(a, l, i) == s.Node(b, l, i)
  }

  lemma {:induction false} SameNodesSameTree(s: Scheme, a: seq<Digest>, b: seq<Digest>, l: nat, d: nat)
    requires SameNodes(s, a, b, l)
    ensures s.RootFrom(a, l, d) == s.RootFrom(b, l, d)
    ensures forall pos: nat :: s.PathFrom(a, l, pos, d) == s.PathFrom(b, l, pos, d)
    decreases d
  {
    hide Scheme.Node, Scheme.NextLayer;
    if d > 0 {
      var up, a', b' := l + 1, s.NextLayer(a, l), s.NextLayer(b, l);
      forall i: nat
        ensures s.Node(a', up, i) == s.Node(b', up, i)
      {
        s.ParentOfChildren(a, l, i);
        s.ParentOfChildren(b, l, i);
      }
      SameNodesSameTree(s, a', b', up, d - 1);
    }
  }

  /** Everything past the leaves is as if filled with the uncommitted digest, up to the capacity. */
  lemma UnfilledIsUncommitted(s: Scheme, leaves: seq<Digest>, pos: nat)
    ensures s.Root(leaves + [s.uncommitted]) == s.Root(leaves)
    ensures s.AuthPath(leaves + [s.uncommitted], pos) == s.AuthPath(leaves, pos)
  {
    assert SameNodes(s, leaves + [s.uncommitted], leaves, 0);
    SameNodesSameTree(s, leaves + [s.uncommitted], leaves, 0, DEPTH);
  }

  // ----- the incremental structures, by what they stand for -----

  /** Appending to the commitment tree fails only when it is full. */
  function AppendLeaf(tree: seq<Digest>, leaf: Digest): Option<seq<Digest>> {
    if |tree| >= Pow2(DEPTH) then None else Some(tree + [leaf])
  }

  /** A witness for the last leaf of `tree`, extended by the leaves appended since. */
  datatype IncrementalWitness = IncrementalWitness(tree: seq<Digest>, appended: seq<Digest>) {
    function Append(leaf: Digest): Option<IncrementalWitness> {
      if |tree| + |appended| >= Pow2(DEPTH) then None else Some(this.(appended := appended + [leaf]))
    }

    function Path(s: Scheme): Option<seq<Digest>> {
      if tree == [] then None else Some(s.AuthPath(tree + appended, |tree| - 1))
    }
  }

  datatype PathOut = PathOut(position: uint32, authPath: seq<Digest>)
  datatype Response = Ok(root: Digest, paths: seq<PathOut>) | InvalidRequest | Internal

  ghost predicate ValidRequest(s: Scheme, cmxs: seq<string>, positions: seq<uint32>) {
    && cmxs != [] && positions != [] && |positions| <= 1000
    && s.Decode(cmxs).Some? && |cmxs| < TWO32
    && (forall i :: 0 <= i < |positions| ==> positions[i] < |cmxs|)
    && Distinct(positions)
  }

  lemma {:induction false} DecodeKeepsLength(s: Scheme, cmxs: seq<string>)
    ensures s.Decode(cmxs).Some? ==> |s.Decode(cmxs).value| == |cmxs|
    ensures forall k :: 0 <= k <= |cmxs| && s.Decode(cmxs).Some? ==>
              s.Decode(cmxs[..k]) == Some(s.Decode(cmxs).value[..k])
  {
    if cmxs != [] {
      var front := cmxs[..|cmxs| - 1];
      DecodeKeepsLength(s, front);
      forall k | 0 <= k <= |cmxs| && s.Decode(cmxs).Some?
        ensures s.Decode(cmxs[..k]) == Some(s.Decode(cmxs).value[..k])
      {
        if k == |cmxs| {
          assert cmxs[..k] == cmxs;
          assert s.Decode(cmxs).value[..k] == s.Decode(cmxs).value;
        } else {
          assert front[..k] == cmxs[..k];
          assert s.Decode(front).value[..k] == s.Decode(cmxs).value[..k];
        }
      }
    }
  }

  // ----- the loops -----

  method DecodeLeaves(s: Scheme, cmxs: seq<string>) returns (r: Option<seq<Digest>>)
    ensures r == s.Decode(cmxs)
  {
    DecodeKeepsLength(s, cmxs);
    var leaves: seq<Digest> := [];
    for i := 0 to |cmxs|
      invariant s.Decode(cmxs[..i]) == Some(leaves)
    {
      assert cmxs[..i + 1][..i] == cmxs[..i];
      var leaf := s.decode(cmxs[i]);
      if leaf.None? {
        DecodeKeepsLength(s, cmxs);
        assert s.Decode(cmxs[..i + 1]).None?;
        return None;
      }
      leaves := leaves + [leaf.value];
    }
    assert cmxs[..|cmxs|] == cmxs;
    return Some(leaves);
  }

  /** Where each position belongs in the answer; nothing if a position is asked for twice. */
  method WantedPositions(positions: seq<uint32>) returns (r: Option<map<uint32, nat>>)
    ensures r.Some? <==> Distinct(positions)
    ensures r.Some? ==> forall p :: p in r.value ==> r.value[p] < |positions| && positions[r.value[p]] == p
    ensures r.Some? ==> forall i :: 0 <= i < |positions| ==> positions[i] in r.value && r.value[positions[i]] == i
  {
    var want: map<uint32, nat> := map[];
    for i := 0 to |positions|
      invariant forall p :: p in want ==> want[p] < i && positions[want[p]] == p
      invariant forall k :: 0 <= k < i ==> positions[k] in want && want[positions[k]] == k
    {
      if positions[i] in want {
        return None;
      }
      want := want[positions[i] := i];
    }
    return Some(want);
  }

  /** The witness with answer slot `idx` stands for its position among the leaves so far. */
  ghost predicate Tracks(active: (nat, IncrementalWitness), leaves: seq<Digest>, positions: seq<uint32>) {
    && active.0 < |positions|
    && |active.1.tree| - 1 == positions[active.0]
    && active.1.tree + active.1.appended == leaves
  }

  ghost predicate HasSlot(active: seq<(nat, IncrementalWitness)>, idx: nat) {
    exists k :: 0 <= k < |active| && active[k].0 == idx
  }

  method AppendToAll(active: seq<(nat, IncrementalWitness)>, leaf: Digest, ghost leaves: seq<Digest>,
                     ghost positions: seq<uint32>)
    returns (out: seq<(nat, IncrementalWitness)>)
    requires |leaves| < Pow2(DEPTH)
    requires forall k :: 0 <= k < |active| ==> Tracks(active[k], leaves, positions)
    ensures |out| == |active|
    ensures forall k :: 0 <= k < |active| ==> out[k].0 == active[k].0 && Tracks(out[k], leaves + [leaf], positions)
  {
    out := active;
    for k := 0 to |active|
      invariant |out| == |active|
      invariant forall j :: 0 <= j < k ==> out[j].0 == active[j].0 && Tracks(out[j], leaves + [leaf], positions)
      invariant forall j :: k <= j < |active| ==> out[j] == active[j]
    {
      assert Tracks(out[k], leaves, positions);
      var w := out[k].1.Append(leaf);
      assert w.value.tree + w.value.appended == leaves + [leaf];
      out := out[k := (out[k].0, w.value)];
    }
  }

  lemma SlotsKept(before: seq<(nat, IncrementalWitness)>, after: seq<(nat, IncrementalWitness)>)
    requires |before| == |after| && forall k :: 0 <= k < |before| ==> after[k].0 == before[k].0
    ensures forall idx :: HasSlot(before, idx) ==> HasSlot(after, idx)
  {
    forall idx | HasSlot(before, idx)
      ensures HasSlot(after, idx)
    {
      var k :| 0 <= k < |before| && before[k].0 == idx;
      assert after[k].0 == idx;
    }
  }

  lemma SlotAdded(before: seq<(nat, IncrementalWitness)>, newest: (nat, IncrementalWitness))
    ensures forall idx :: HasSlot(before, idx) ==> HasSlot(before + [newest], idx)
    ensures HasSlot(before + [newest], newest.0)
  {
    var after := before + [newest];
    assert after[|before|].0 == newest.0;
    forall idx | HasSlot(before, idx)
      ensures HasSlot(after, idx)
    {
      var k :| 0 <= k < |before| && before[k].0 == idx;
      assert after[k].0 == idx;
    }
  }

  lemma NewestTracks(newest: (nat, IncrementalWitness), leaves: seq<Digest>, positions: seq<uint32>)
    requires newest.0 < |positions| && newest.1 == IncrementalWitness(leaves, [])
    requires |leaves| - 1 == positions[newest.0]
    ensures Tracks(newest, leaves, positions)
  {
  }

  method StreamLeaves(leaves: seq<Digest>, positions: seq<uint32>, want: map<uint32, nat>)
    returns (active: seq<(nat, IncrementalWitness)>)
    requires |leaves| < TWO32
    requires forall p :: p in want ==> want[p] < |positions| && positions[want[p]] == p
    requires forall i :: 0 <= i < |positions| ==> positions[i] in want && want[positions[i]] == i
    ensures forall k :: 0 <= k < |active| ==> Tracks(active[k], leaves, positions)
    ensures forall idx :: 0 <= idx < |positions| && positions[idx] < |leaves| ==> HasSlot(active, idx)
  {
    CapacityIsTwo32();
    hide Pow2, Tracks, HasSlot;
    var tree: seq<Digest> := [];
    active := [];
    for i := 0 to |leaves|
      invariant tree == leaves[..i]
      invariant forall k :: 0 <= k < |active| ==> Tracks(active[k], leaves[..i], positions)
      invariant forall idx :: 0 <= idx < |positions| && positions[idx] < i ==> HasSlot(active, idx)
    {
      var leaf := leaves[i];
      assert leaves[..i + 1] == leaves[..i] + [leaf];
      tree := AppendLeaf(tree, leaf).value;  // never full
      var extended := AppendToAll(active, leaf, leaves[..i], positions);
      SlotsKept(active, extended);
      active := extended;
      if i in want {
        var newest := (want[i], IncrementalWitness(tree, []));
        NewestTracks(newest, leaves[..i + 1], positions);
        active := active + [newest];
        SlotAdded(extended, newest);
      }
    }
    assert leaves[..|leaves|] == leaves;
  }

  /** Puts every finished path into the slot of its request. */
  method CollectPaths(s: Scheme, active: seq<(nat, IncrementalWitness)>, leaves: seq<Digest>, positions: seq<uint32>)
    returns (paths: seq<PathOut>)
    requires forall k :: 0 <= k < |active| ==> Tracks(active[k], leaves, positions)
    requires forall idx :: 0 <= idx < |positions| ==> HasSlot(active, idx)
    ensures |paths| == |positions|
    ensures forall i :: 0 <= i < |positions| ==> paths[i] == PathOut(positions[i], s.AuthPath(leaves, positions[i]))
  {
    hide Scheme.AuthPath;
    var slots: seq<Option<PathOut>> := seq(|positions|, _ => None);
    for k := 0 to |active|
      invariant |slots| == |positions|
      invariant forall i :: 0 <= i < |slots| && slots[i].Some? ==>
                              slots[i].value == PathOut(positions[i], s.AuthPath(leaves, positions[i]))
      invariant forall j :: 0 <= j < k ==> slots[active[j].0].Some?
    {
      assert Tracks(active[k], leaves, positions);
      var idx, path := active[k].0, active[k].1.Path(s);
      slots := slots[idx := Some(PathOut(positions[idx], path.value))];
    }
    forall i | 0 <= i < |slots|
      ensures slots[i].Some?
    {
      assert HasSlot(active, i);
      var k :| 0 <= k < |active| && active[k].0 == i;
      assert slots[active[k].0].Some?;
    }
    paths := [];
    for i := 0 to |slots|
      invariant |paths| == i
      invariant forall j :: 0 <= j < i ==> paths[j] == PathOut(positions[j], s.AuthPath(leaves, positions[j]))
    {
      paths := paths + [slots[i].value];
    }
  }

  /**
   * A valid request gets the root over all leaves and one path per position, in request order;
   * every other request is invalid. The internal errors of the source never occur.
   */
  method OrchardWitness(s: Scheme, cmxs: seq<string>, positions: seq<uint32>) returns (r: Response)
    ensures !r.Internal?
    ensures r.Ok? <==> ValidRequest(s, cmxs, positions)
    ensures r.Ok? ==>
              var leaves := s.Decode(cmxs).value;
              && r.root == s.Root(leaves)
              && |r.paths| == |positions|
              && forall i :: 0 <= i < |positions| ==>
                   r.paths[i] == PathOut(positions[i], s.AuthPath(leaves, positions[i]))
  {
    hide Scheme.AuthPath, Scheme.Decode, Scheme.Root;
    if cmxs == [] || positions == [] || |positions| > MAX_POSITIONS {
      return InvalidRequest;
    }
    var decoded := DecodeLeaves(s, cmxs);
    if decoded.None? {
      return InvalidRequest;
    }
    var leaves := decoded.value;
    DecodeKeepsLength(s, cmxs);
    if |leaves| >= TWO32 {
      return InvalidRequest;
    }
    for i := 0 to |positions|
      invariant forall k :: 0 <= k < i ==> positions[k] < |leaves|
    {
      if positions[i] >= |leaves| {
        return InvalidRequest;
      }
    }
    var want := WantedPositions(positions);
    if want.None? {
      return InvalidRequest;
    }
    var active := StreamLeaves(leaves, positions, want.value);
    var paths := CollectPaths(s, active, leaves, positions);
    return Ok(s.Root(leaves), paths);
  }

  /** Every path of the answer recomputes the root over all leaves from its own leaf. */
  lemma PathsOpenToTheRoot(s: Scheme, leaves: seq<Digest>, pos: nat)
    requires pos < |leaves| < TWO32
    ensures s.Open(leaves[pos], 0, pos, s.AuthPath(leaves, pos)) == s.Root(leaves)
    ensures |s.AuthPath(leaves, pos)| == DEPTH
  {
    CapacityIsTwo32();
    s.PathOpens(leaves, 0, pos, DEPTH);
  }
}
