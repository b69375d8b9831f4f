/**
 * Unspent notes, their values, and the total order that both selectors sort by.
 * A sub-multiset of a wallet is any sequence `s` with `multiset(s) <= multiset(wallet)`.
 */
module Notes {
  import opened Machine

  datatype Note = Note(txid: string, index: uint32, value: uint64)

  // ----- total value -----

  function Sum(notes: seq<Note>): nat {
    if notes == [] then 0 else Sum(notes[..|notes| - 1]) + notes[|notes| - 1].value
  }

  lemma SumOfNothing()
    ensures Sum([]) == 0
  {
  }

  lemma SumTake(notes: seq<Note>, k: nat)
    requires k < |notes|
    ensures Sum(notes[..k + 1]) == Sum(notes[..k]) + notes[k].value
  {
    assert notes[..k + 1][..k] == notes[..k];
  }

  lemma {:induction false} SumConcat(a: seq<Note>, b: seq<Note>)
    ensures Sum(a + b) == Sum(a) + Sum(b)
  {
    if b == [] {
      assert a + b == a;
    } else {
      assert (a + b)[..|a + b| - 1] == a + b[..|b| - 1];
      SumConcat(a, b[..|b| - 1]);
    }
  }

  lemma SumSplit(notes: seq<Note>, k: nat)
    requires k <= |notes|
    ensures Sum(notes) == Sum(notes[..k]) + Sum(notes[k..])
    ensures multiset(notes) == multiset(notes[..k]) + multiset(notes[k..])
  {
    assert notes == notes[..k] + notes[k..];
    SumConcat(notes[..k], notes[k..]);
  }

  function Without(notes: seq<Note>, p: nat): seq<Note>
    requires p < |notes|
  {
    notes[..p] + notes[p + 1..]
  }

  lemma WithoutKeepsOthers(notes: seq<Note>, p: nat)
    requires p < |notes|
    ensures multiset(notes) == multiset(Without(notes, p)) + multiset{notes[p]}
  {
    assert notes == notes[..p] + [notes[p]] + notes[p + 1..];
  }

  lemma WithoutSum(notes: seq<Note>, p: nat)
    requires p < |notes|
    ensures Sum(notes) == Sum(Without(notes, p)) + notes[p].value
  {
    var front, back := notes[..p + 1], notes[p + 1..];
    assert notes == front + back;
    SumConcat(front, back);
    SumTake(notes, p);
    SumConcat(notes[..p], back);
  }

  /** Two notes taken from the wallet sit at two different positions of it. */
  lemma TwoPositions(notes: seq<Note>, a: Note, b: Note) returns (x: nat, y: nat)
    requires multiset{a} + multiset{b} <= multiset(notes)
    ensures x < y < |notes|
    ensures (notes[x] == a && notes[y] == b) || (notes[x] == b && notes[y] == a)
  {
    assert a in multiset(notes);
    var p :| 0 <= p < |notes| && notes[p] == a;
    WithoutKeepsOthers(notes, p);
    assert (multiset{a} + multiset{b})[b] <= multiset(notes)[b];
    assert b in multiset(Without(notes, p));
    var w :| 0 <= w < |Without(notes, p)| && Without(notes, p)[w] == b;
    if w < p {
      x, y := w, p;
    } else {
      x, y := p, w + 1;
    }
  }

  /**
   * Exchange argument. When everything in `top` is worth at least everything in `rest`,
   * no choice of at most `|top|` notes from both together is worth more than `top`.
   */
  lemma {:induction false} TopIsMaximal(top: seq<Note>, rest: seq<Note>, s: seq<Note>)
    requires forall x, y :: x in top && y in rest ==> x.value >= y.value
    requires multiset(s) <= multiset(top) + multiset(rest)
    requires |s| <= |top|
    ensures Sum(s) <= Sum(top)
    decreases |s|
  {
    if s != [] {
      if p :| 0 <= p < |top| && top[p] in s {
        var q :| 0 <= q < |s| && s[q] == top[p];
        DropPair(top, rest, s, p, q);
        TopIsMaximal(Without(top, p), rest, Without(s, q));
      } else {
        assert multiset(s) <= multiset(rest) by {
          OnlyFromRest(top, rest, s);
        }
        var t, q := |top| - 1, |s| - 1;
        DropPair(top, rest, s, t, q);
        assert s[q] in multiset(s) && top[t] in top;
        TopIsMaximal(Without(top, t), rest, Without(s, q));
      }
    }
  }

  lemma OnlyFromRest(top: seq<Note>, rest: seq<Note>, s: seq<Note>)
    requires multiset(s) <= multiset(top) + multiset(rest)
    requires forall x :: x in top ==> x !in s
    ensures multiset(s) <= multiset(rest)
  {
    forall x | x in multiset(s)
      ensures multiset(s)[x] <= multiset(rest)[x]
    {
      assert x in s;
      assert x !in multiset(top);
    }
  }

  /** Removing one note from each side keeps the choice inside what is left. */
  lemma DropPair(top: seq<Note>, rest: seq<Note>, s: seq<Note>, p: nat, q: nat)
    requires p < |top| && q < |s|
    requires multiset(s) <= multiset(top) + multiset(rest)
    requires top[p] == s[q] || multiset(s) <= multiset(rest)
    ensures multiset(Without(s, q)) <= multiset(Without(top, p)) + multiset(rest)
    ensures Sum(s) == Sum(Without(s, q)) + s[q].value
    ensures Sum(top) == Sum(Without(top, p)) + top[p].value
    ensures forall x :: x in Without(top, p) ==> x in top
  {
    hide Sum;
    WithoutKeepsOthers(top, p);
    WithoutKeepsOthers(s, q);
    WithoutSum(top, p);
    WithoutSum(s, q);
  }

  lemma SumIsMonotone(s: seq<Note>, all: seq<Note>)
    requires multiset(s) <= multiset(all)
    ensures Sum(s) <= Sum(all)
  {
    assert |multiset(s)| <= |multiset(all)| by {
      assert multiset(all) == multiset(s) + (multiset(all) - multiset(s));
    }
    TopIsMaximal(all, [], s);
  }

  // ----- the sort order -----

  /** Byte-wise comparison of transaction ids. */
  predicate TextBefore(a: string, b: string) {
    b != [] && (a == [] || a[0] < b[0] || (a[0] == b[0] && TextBefore(a[1..], b[1..])))
  }

  lemma {:induction false} TextTotal(a: string, b: string)
    ensures a == b || TextBefore(a, b) || TextBefore(b, a)
    ensures !(TextBefore(a, b) && TextBefore(b, a))
    ensures !TextBefore(a, a)
  {
    if a != [] && b != [] && a[0] == b[0] {
      TextTotal(a[1..], b[1..]);
      assert a == [a[0]] + a[1..] && b == [b[0]] + b[1..];
    }
    if a != [] && (b == [] || a[0] != b[0]) {
      TextTotal(a[1..], a[1..]);
    }
  }

  lemma {:induction false} TextTransitive(a: string, b: string, c: string)
    requires TextBefore(a, b) && TextBefore(b, c)
    ensures TextBefore(a, c)
  {
    if a != [] && a[0] == b[0] && b[0] == c[0] {
      TextTransitive(a[1..], b[1..], c[1..]);
    }
  }

  /**
   * The comparison handed to the sort: by value in the chosen direction, ties by
   * transaction id, then by action index. It covers every field of a note.
   */
  predicate Before(a: Note, b: Note, descending: bool) {
    if a.value != b.value then
      if descending then a.value > b.value else a.value < b.value
    else if a.txid != b.txid then
      TextBefore(a.txid, b.txid)
    else
      a.index < b.index
  }

  lemma BeforeTotal(a: Note, b: Note, descending: bool)
    ensures a == b || Before(a, b, descending) || Before(b, a, descending)
    ensures !(Before(a, b, descending) && Before(b, a, descending))
  {
    TextTotal(a.txid, b.txid);
  }

  lemma BeforeTransitive(a: Note, b: Note, c: Note, descending: bool)
    requires !Before(b, a, descending) && !Before(c, b, descending)
    ensures !Before(c, a, descending)
  {
    TextTotal(a.txid, b.txid);
    TextTotal(b.txid, c.txid);
    TextTotal(a.txid, c.txid);
    if TextBefore(a.txid, b.txid) && TextBefore(b.txid, c.txid) {
      TextTransitive(a.txid, b.txid, c.txid);
    }
  }

  ghost predicate Ordered(notes: seq<Note>, descending: bool) {
    forall i, j :: 0 <= i < j < |notes| ==> !Before(notes[j], notes[i], descending)
  }

  function InsertNote(x: Note, notes: seq<Note>, descending: bool): (r: seq<Note>)
    ensures multiset(r) == multiset(notes) + multiset{x}
  {
    if notes == [] || !Before(x, notes[|notes| - 1], descending) then
      notes + [x]
    else
      assert notes == notes[..|notes| - 1] + [notes[|notes| - 1]];
      InsertNote(x, notes[..|notes| - 1], descending) + [notes[|notes| - 1]]
  }

  /** Appending a note that is not before the last one keeps the order. */
  lemma OrderedAppend(notes: seq<Note>, x: Note, descending: bool)
    requires Ordered(notes, descending)
    requires notes != [] ==> !Before(x, notes[|notes| - 1], descending)
    ensures Ordered(notes + [x], descending)
  {
    forall i | 0 <= i < |notes| - 1
      ensures !Before(x, notes[i], descending)
    {
      BeforeTransitive(notes[i], notes[|notes| - 1], x, descending);
    }
  }

  lemma {:induction false} InsertKeepsOrder(x: Note, notes: seq<Note>, descending: bool)
    requires Ordered(notes, descending)
    ensures Ordered(InsertNote(x, notes, descending), descending)
  {
    if notes == [] || !Before(x, notes[|notes| - 1], descending) {
      OrderedAppend(notes, x, descending);
    } else {
      var front, last := notes[..|notes| - 1], notes[|notes| - 1];
      InsertKeepsOrder(x, front, descending);
      BeforeTotal(x, last, descending);
      var r := InsertNote(x, front, descending);
      assert r[|r| - 1] in multiset(r);
      assert r[|r| - 1] == x || r[|r| - 1] in front;
      OrderedAppend(r, last, descending);
    }
  }

  /** What `sort.Slice` leaves in the slice: the candidates in order, each kept once. */
  function SortNotes(notes: seq<Note>, descending: bool): (r: seq<Note>)
    ensures Ordered(r, descending)
    ensures multiset(r) == multiset(notes)
    ensures |r| == |notes|
  {
    if notes == [] then
      []
    else
      assert notes == notes[..|notes| - 1] + [notes[|notes| - 1]];
      InsertKeepsOrder(notes[|notes| - 1], SortNotes(notes[..|notes| - 1], descending), descending);
      var r := InsertNote(notes[|notes| - 1], SortNotes(notes[..|notes| - 1], descending), descending);
      assert |multiset(r)| == |multiset(notes)|;
      r
  }

  /** Byte-wise order with equality, by the first place where the texts differ. */
  ghost predicate UpTo(a: string, b: string, k: nat) {
    && k <= |a| && k <= |b| && a[..k] == b[..k]
    && (k == |a| || (k < |b| && a[k] < b[k]))
  }

  lemma {:induction false} TextBeforeIff(a: string, b: string) returns (k: nat)
    requires !TextBefore(b, a)
    ensures UpTo(a, b, k)
  {
    if a == [] || b == [] || a[0] != b[0] {
      k := 0;
    } else {
      var j := TextBeforeIff(a[1..], b[1..]);
      k := j + 1;
      assert a[..k] == [a[0]] + a[1..][..j] && b[..k] == [b[0]] + b[1..][..j];
    }
  }

  /**
   * The sorted candidates in plain terms: by value, ascending or descending; equal values by
   * transaction id, byte-wise and ascending either way; equal ids by action index.
   */
  lemma SortedByValueIdIndex(notes: seq<Note>, descending: bool, i: nat, j: nat)
    requires i < j < |notes|
    ensures var r := SortNotes(notes, descending);
            && (if descending then r[i].value >= r[j].value else r[i].value <= r[j].value)
            && (r[i].value == r[j].value ==> exists k :: UpTo(r[i].txid, r[j].txid, k))
            && (r[i].value == r[j].value && r[i].txid == r[j].txid ==> r[i].index <= r[j].index)
  {
    var r := SortNotes(notes, descending);
    assert !Before(r[j], r[i], descending);
    if r[i].value == r[j].value {
      TextTotal(r[i].txid, r[j].txid);
      var k := TextBeforeIff(r[i].txid, r[j].txid);
    }
  }

  /** Only one arrangement is in order, so an unstable sort is deterministic here. */
  lemma {:induction false} OrderedIsUnique(a: seq<Note>, b: seq<Note>, descending: bool)
    requires Ordered(a, descending) && Ordered(b, descending)
    requires multiset(a) == multiset(b)
    ensures a == b
  {
    assert |multiset(a)| == |a| && |multiset(b)| == |b|;
    if a != [] {
      SameHead(a, b, descending);
      TailMultiset(a);
      TailMultiset(b);
      OrderedIsUnique(a[1..], b[1..], descending);
      assert a == [a[0]] + a[1..] && b == [b[0]] + b[1..];
    }
  }

  lemma SameHead(a: seq<Note>, b: seq<Note>, descending: bool)
    requires Ordered(a, descending) && Ordered(b, descending)
    requires multiset(a) == multiset(b)
    requires a != [] && b != []
    ensures a[0] == b[0]
  {
    assert a[0] in multiset(b) && b[0] in multiset(a);
    BeforeTotal(a[0], b[0], descending);
  }

  lemma TailMultiset(a: seq<Note>)
    requires a != []
    ensures multiset(a[1..]) == multiset(a) - multiset{a[0]}
  {
    assert a == [a[0]] + a[1..];
  }

  lemma SortIgnoresOrder(a: seq<Note>, b: seq<Note>, descending: bool)
    requires multiset(a) == multiset(b)
    ensures SortNotes(a, descending) == SortNotes(b, descending)
  {
    OrderedIsUnique(SortNotes(a, descending), SortNotes(b, descending), descending);
  }

  /** The `k` last notes of the ascending order form the most valuable choice of `k`. */
  lemma LargestAreLast(asc: seq<Note>, s: seq<Note>)
    requires Ordered(asc, false)
    requires multiset(s) <= multiset(asc)
    ensures |s| <= |asc|
    ensures Sum(s) <= Sum(asc[|asc| - |s|..])
  {
    assert multiset(asc) == multiset(s) + (multiset(asc) - multiset(s));
    assert |multiset(asc)| == |multiset(s)| + |multiset(asc) - multiset(s)|;
    var m := |asc| - |s|;
    SumSplit(asc, m);
    TopIsMaximal(asc[m..], asc[..m], s);
  }

  /** The `k` first notes of the descending order form the most valuable choice of `k`. */
  lemma LargestAreFirst(desc: seq<Note>, s: seq<Note>)
    requires Ordered(desc, true)
    requires multiset(s) <= multiset(desc)
    ensures |s| <= |desc|
    ensures Sum(s) <= Sum(desc[..|s|])
  {
    assert multiset(desc) == multiset(s) + (multiset(desc) - multiset(s));
    assert |multiset(desc)| == |multiset(s)| + |multiset(desc) - multiset(s)|;
    SumSplit(desc, |s|);
    TopIsMaximal(desc[..|s|], desc[|s|..], s);
  }
}
