/** Listing the wallet's spendable notes from the scanner, page by page. */
module ScanNotes {
  import opened Machine
  import opened Notes
  import opened NoteIds

  /** The scanner's action index: possibly negative, and a uint32 when it is not. */
  type ScanIndex = x: int | -TWO63 <= x < TWO32

  datatype ScanNote = ScanNote(direction: string, txid: string, index: ScanIndex, height: int64,
                               position: Option<int64>, value: int64, pendingSpent: Option<string>)

  datatype Spendable = Spendable(txid: string, index: uint32, height: int64, position: uint32, value: uint64) {
    function Id(): string {
      NoteId(txid, index)
    }

    function ToUnspent(): Note {
      Note(txid, index, value)
    }
  }

  /** One reply of the scanner; an empty cursor ends the listing. */
  datatype Page = Page(notes: seq<ScanNote>, next: string)

  datatype Params = Params(tip: uint32, minConf: int64, minNote: uint64)

  datatype Verdict = Keep(note: Spendable) | Skip | Bad

  /** Every filter a note must pass, in one condition. */
  predicate Passes(n: ScanNote, p: Params) {
    && n.direction == "incoming"
    && (n.pendingSpent.None? || n.pendingSpent.value == "")
    && n.position.Some? && 0 <= n.position.value < TWO32
    && 0 <= n.height <= p.tip && p.tip - n.height + 1 >= p.minConf
    && n.index >= 0
    && n.value > 0 && n.value >= p.minNote
  }

  /**
   * The notes no listing may contain: those of neither direction, and an incoming one that would
   * pass every filter if its position were not too large.
   */
  predicate Fatal(n: ScanNote, p: Params) {
    if n.direction == "incoming" then
      && n.position.Some? && n.position.value >= TWO32
      && Passes(n.(position := Some(0)), p)
    else
      n.direction != "outgoing"
  }

  /** The chain of checks in the order the source makes them. */
  function Judge(n: ScanNote, p: Params): (v: Verdict)
    ensures v.Keep? <==> Passes(n, p)
    ensures v.Keep? ==> v.note == Spendable(n.txid, n.index, n.height, n.position.value, n.value)
    ensures v.Bad? <==> Fatal(n, p)
  {
    if n.direction != "incoming" then
      if n.direction == "outgoing" then Skip else Bad
    else if n.pendingSpent.Some? && n.pendingSpent.value != "" then
      Skip
    else if n.position.None? || n.position.value < 0 then
      Skip
    else if n.height < 0 then
      Skip
    else if p.tip < n.height then
      Skip
    else if p.tip - n.height + 1 < p.minConf then
      Skip
    else if n.index < 0 then
      Skip
    else if n.value <= 0 then
      Skip
    else if p.minNote > 0 && n.value < p.minNote then
      Skip
    else if n.position.value >= TWO32 then
      Bad
    else
      Keep(Spendable(n.txid, n.index, n.height, n.position.value, n.value))
  }

  function Ids(notes: seq<Spendable>): set<string> {
    set n | n in notes :: n.Id()
  }

  /** The result of running over the notes in order: a bad note or a repeated id fails the listing. */
  function Collect(notes: seq<ScanNote>, p: Params): Option<seq<Spendable>> {
    if notes == [] then
      Some([])
    else
      match Collect(notes[..|notes| - 1], p)
      case None => None
      case Some(out) =>
        match Judge(notes[|notes| - 1], p)
        case Bad => None
        case Skip => Some(out)
        case Keep(x) => if x.Id() in Ids(out) then None else Some(out + [x])
  }

  lemma CollectSnoc(notes: seq<ScanNote>, n: ScanNote, p: Params)
    ensures Collect(notes, p).None? ==> Collect(notes + [n], p).None?
    ensures Collect(notes, p).Some? ==>
              var out := Collect(notes, p).value;
              Collect(notes + [n], p) ==
                match Judge(n, p)
                case Bad => None
                case Skip => Some(out)
                case Keep(x) => if x.Id() in Ids(out) then None else Some(out + [x])
  {
    assert (notes + [n])[..|notes|] == notes;
  }

  lemma {:induction false} FailureIsFinal(notes: seq<ScanNote>, more: seq<ScanNote>, p: Params)
    requires Collect(notes, p).None?
    ensures Collect(notes + more, p).None?
  {
    if more == [] {
      assert notes + more == notes;
    } else {
      var front := more[..|more| - 1];
      FailureIsFinal(notes, front, p);
      assert notes + more == notes + front + [more[|more| - 1]];
      CollectSnoc(notes + front, more[|more| - 1], p);
    }
  }

  ghost predicate DistinctIds(notes: seq<Spendable>) {
    forall i, j :: 0 <= i < j < |notes| ==> notes[i].Id() != notes[j].Id()
  }

  /** All notes that pass, in order, whether or not ids repeat, with what the planner keeps of them. */
  function Kept(notes: seq<ScanNote>, p: Params): seq<Spendable> {
    if notes == [] then
      []
    else
      var front, n := Kept(notes[..|notes| - 1], p), notes[|notes| - 1];
      if Passes(n, p) then front + [Spendable(n.txid, n.index, n.height, n.position.value, n.value)] else front
  }

  /**
   * The listing returns exactly the notes that pass every filter, in order and without a
   * repeated id; it fails exactly when some note is fatal or two passing notes share an id.
   */
  lemma {:induction false} CollectIsExact(notes: seq<ScanNote>, p: Params)
    ensures Collect(notes, p) ==
              if (exists n :: n in notes && Fatal(n, p)) || !DistinctIds(Kept(notes, p)) then None
              else Some(Kept(notes, p))
  {
    hide Passes, Fatal;
    if notes != [] {
      var front, last := notes[..|notes| - 1], notes[|notes| - 1];
      CollectIsExact(front, p);
      assert notes == front + [last];
      assert forall n :: n in notes <==> n in front || n == last;
      CollectSnoc(front, last, p);
      KeptSnoc(Kept(front, p), Judge(last, p));
    }
  }

  lemma KeptSnoc(front: seq<Spendable>, v: Verdict)
    ensures v.Keep? ==> (DistinctIds(front + [v.note]) <==> DistinctIds(front) && v.note.Id() !in Ids(front))
  {
    hide NoteId;
    if v.Keep? {
      var all := front + [v.note];
      if DistinctIds(all) {
        assert forall i :: 0 <= i < |front| ==> all[i] == front[i] && all[i].Id() != all[|front|].Id();
      }
    }
  }

  // ----- the paging loop -----

  function AllNotes(pages: seq<Page>): seq<ScanNote> {
    if pages == [] then [] else AllNotes(pages[..|pages| - 1]) + pages[|pages| - 1].notes
  }

  /** The cursor sent with request `i`: nothing first, then what the previous page named. */
  function CursorAt(pages: seq<Page>, i: nat): string
    requires i <= |pages|
  {
    if i == 0 then "" else pages[i - 1].next
  }

  /** The pages are the scanner's replies to the requests of this listing, in order. */
  ghost predicate Visited(fetch: (nat, string) -> Option<Page>, pages: seq<Page>) {
    forall i :: 0 <= i < |pages| ==> fetch(i, CursorAt(pages, i)) == Some(pages[i])
  }

  ghost predicate CursorRepeats(pages: seq<Page>) {
    exists i, j :: 0 <= i < j < |pages| && pages[i].next == pages[j].next && pages[j].next != ""
  }

  lemma VisitNext(fetch: (nat, string) -> Option<Page>, pages: seq<Page>, page: Page)
    requires Visited(fetch, pages)
    requires fetch(|pages|, CursorAt(pages, |pages|)) == Some(page)
    ensures Visited(fetch, pages + [page])
    ensures AllNotes(pages + [page]) == AllNotes(pages) + page.notes
    ensures CursorAt(pages + [page], |pages| + 1) == page.next
  {
    hide Visited;
    assert (pages + [page])[..|pages|] == pages;
    VisitedNext(fetch, pages, page);
  }

  lemma VisitedNext(fetch: (nat, string) -> Option<Page>, pages: seq<Page>, page: Page)
    requires Visited(fetch, pages)
    requires fetch(|pages|, CursorAt(pages, |pages|)) == Some(page)
    ensures Visited(fetch, pages + [page])
  {
    hide CursorAt;
    var all := pages + [page];
    forall i | 0 <= i < |all|
      ensures fetch(i, CursorAt(all, i)) == Some(all[i])
    {
      CursorKept(pages, page, i);
      assert all[i] == if i < |pages| then pages[i] else page;
    }
  }

  lemma CursorKept(pages: seq<Page>, page: Page, i: nat)
    requires i <= |pages|
    ensures CursorAt(pages + [page], i) == CursorAt(pages, i)
  {
  }

  lemma NoPagesYet(fetch: (nat, string) -> Option<Page>, p: Params)
    ensures Visited(fetch, []) && Seen([], {}) && AllNotes([]) == [] && CursorAt([], 0) == ""
    ensures Collect([], p) == Some([])
  {
  }

  /** The cursors seen are exactly those the pages so far have named. */
  ghost predicate Seen(pages: seq<Page>, seen: set<string>) {
    forall c :: c in seen <==> exists i :: 0 <= i < |pages| && pages[i].next == c
  }

  lemma SeeNext(pages: seq<Page>, seen: set<string>, page: Page)
    requires Seen(pages, seen)
    ensures Seen(pages + [page], seen + {page.next})
    ensures page.next in seen && page.next != "" ==> CursorRepeats(pages + [page])
  {
    var all := pages + [page];
    assert all[|pages|] == page;
    forall c | c in seen
      ensures exists i :: 0 <= i < |pages| && all[i].next == c
    {
      var i :| 0 <= i < |pages| && pages[i].next == c;
      assert all[i].next == c;
    }
  }

  /**
   * Requests pages until one names no successor. Whatever the scanner answers to each request,
   * and however it cuts the notes into pages, the result is `Collect` of their concatenation;
   * the listing fails only on a failed request, a repeated cursor or a failing note. It ends
   * because every round uses up a cursor not seen before.
   */
  method ListSpendableNotes(fetch: (nat, string) -> Option<Page>, p: Params, ghost cursors: set<string>)
    returns (r: Option<seq<Spendable>>, ghost pages: seq<Page>)
    requires forall i: nat, c: string :: fetch(i, c).Some? ==> fetch(i, c).value.next in cursors
    ensures p.minNote >= TWO63 ==> r == Some([])
    ensures p.minNote < TWO63 ==> Visited(fetch, pages)
    ensures p.minNote < TWO63 && r.Some? ==>
              pages != [] && pages[|pages| - 1].next == "" && r == Collect(AllNotes(pages), p)
    ensures p.minNote < TWO63 && r.None? ==>
              || fetch(|pages|, CursorAt(pages, |pages|)).None?
              || Collect(AllNotes(pages), p).None?
              || CursorRepeats(pages)
  {
    hide Visited, Seen, CursorRepeats, Collect, AllNotes, CursorAt;
    pages := [];
    NoPagesYet(fetch, p);
    if p.minNote >= TWO63 {
      return Some([]), pages;
    }
    var cursor, round: nat, seenCursor: set<string>, out := "", 0, {}, [];
    while true
      invariant round == |pages| && cursor == CursorAt(pages, |pages|)
      invariant Visited(fetch, pages)
      invariant Seen(pages, seenCursor) && seenCursor <= cursors
      invariant Collect(AllNotes(pages), p) == Some(out)
      decreases cursors - seenCursor
    {
      var page := fetch(round, cursor);
      if page.None? {
        return None, pages;
      }
      VisitNext(fetch, pages, page.value);
      SeeNext(pages, seenCursor, page.value);
      var added := CollectPage(AllNotes(pages), page.value.notes, p, out);
      pages := pages + [page.value];
      if added.None? {
        return None, pages;
      }
      out := added.value;
      cursor := page.value.next;
      if cursor == "" {
        return Some(out), pages;
      }
      if cursor in seenCursor {
        return None, pages;
      }
      seenCursor := seenCursor + {cursor};
      round := round + 1;
    }
  }

  lemma SplitPage(before: seq<ScanNote>, notes: seq<ScanNote>, i: nat)
    requires i < |notes|
    ensures before + notes[..i + 1] == before + notes[..i] + [notes[i]]
    ensures before + notes == before + notes[..i + 1] + notes[i + 1..]
  {
  }

  lemma IdsSnoc(notes: seq<Spendable>, n: Spendable)
    ensures Ids(notes + [n]) == Ids(notes) + {n.Id()}
  {
    hide NoteId;
  }

  /** The inner loop: the notes of one page, after `before` has been collected into `start`. */
  method CollectPage(ghost before: seq<ScanNote>, notes: seq<ScanNote>, p: Params, start: seq<Spendable>)
    returns (r: Option<seq<Spendable>>)
    requires Collect(before, p) == Some(start)
    ensures r == Collect(before + notes, p)
  {
    hide Judge, Passes, Collect, Ids;
    var out, seenNotes := start, Ids(start);
    assert before + notes[..0] == before;
    for i := 0 to |notes|
      invariant Collect(before + notes[..i], p) == Some(out)
      invariant seenNotes == Ids(out)
    {
      SplitPage(before, notes, i);
      CollectSnoc(before + notes[..i], notes[i], p);
      var v := Judge(notes[i], p);
      if v.Bad? || (v.Keep? && v.note.Id() in seenNotes) {
        FailureIsFinal(before + notes[..i + 1], notes[i + 1..], p);
        return None;
      }
      if v.Keep? {
        IdsSnoc(out, v.note);
        out := out + [v.note];
        seenNotes := seenNotes + {v.note.Id()};
      }
    }
    assert notes[..|notes|] == notes;
    return Some(out);
  }

  // ----- using the listing -----

  /** The metadata of each listed note by its outpoint. */
  method NoteByOutpoint(notes: seq<Spendable>) returns (m: map<string, Spendable>)
    requires DistinctIds(notes)
    ensures m.Keys == Ids(notes)
    ensures forall n :: n in notes ==> m[n.Id()] == n
  {
    hide NoteId;
    m := map[];
    for i := 0 to |notes|
      invariant m.Keys == Ids(notes[..i])
      invariant forall k :: 0 <= k < i ==> notes[k].Id() in m && m[notes[k].Id()] == notes[k]
    {
      assert notes[..i + 1] == notes[..i] + [notes[i]];
      m := m[notes[i].Id() := notes[i]];
    }
    assert notes[..|notes|] == notes;
  }

  function ToUnspent(notes: seq<Spendable>): (r: seq<Note>)
    ensures |r| == |notes| && forall i :: 0 <= i < |notes| ==> r[i] == notes[i].ToUnspent()
  {
    seq(|notes|, i requires 0 <= i < |notes| => notes[i].ToUnspent())
  }

  /** Every note selected from a listing has metadata under its own key, and it is its own. */
  lemma MetadataIsTotal(notes: seq<Spendable>, selected: seq<Note>, m: map<string, Spendable>)
    requires m.Keys == Ids(notes) && forall n :: n in notes ==> m[n.Id()] == n
    requires multiset(selected) <= multiset(ToUnspent(notes))
    ensures forall u :: u in selected ==>
              var key := NoteId(u.txid, u.index);
              key in m && m[key] in notes && m[key].ToUnspent() == u
  {
    forall u | u in selected
      ensures var key := NoteId(u.txid, u.index); key in m && m[key] in notes && m[key].ToUnspent() == u
    {
      assert u in multiset(selected) && u in multiset(ToUnspent(notes));
      var i :| 0 <= i < |notes| && ToUnspent(notes)[i] == u;
      assert notes[i].Id() == NoteId(u.txid, u.index);
    }
  }

  ghost predicate StillListed(current: seq<Spendable>, u: Note) {
    exists n :: n in current && n.ToUnspent() == u
  }

  /** The second listing went through and every selected note is in it with the same value. */
  ghost predicate RelistedIn(pages: seq<Page>, p: Params, selected: seq<Note>) {
    var listing := Collect(AllNotes(pages), p);
    && pages != [] && pages[|pages| - 1].next == "" && listing.Some?
    && forall u :: u in selected ==> StillListed(listing.value, u)
  }

  /** The second listing failed: a request, a note, or a cursor. */
  ghost predicate ListingFailed(fetch: (nat, string) -> Option<Page>, pages: seq<Page>, p: Params) {
    || fetch(|pages|, CursorAt(pages, |pages|)).None?
    || Collect(AllNotes(pages), p).None?
    || CursorRepeats(pages)
  }

  /**
   * The recheck before returning: the notes are listed again, and each selected note must be
   * there with the same value. It fails only on a failed listing or a note that is not.
   */
  method VerifySelectedNotesStillSpendable(fetch: (nat, string) -> Option<Page>, p: Params,
                                           ghost cursors: set<string>, selected: seq<Note>)
    returns (ok: bool, ghost pages: seq<Page>)
    requires forall i: nat, c: string :: fetch(i, c).Some? ==> fetch(i, c).value.next in cursors
    ensures p.minNote >= TWO63 ==> (ok <==> selected == [])
    ensures p.minNote < TWO63 ==> Visited(fetch, pages)
    ensures p.minNote < TWO63 && ok ==> RelistedIn(pages, p, selected)
    ensures p.minNote < TWO63 && !ok ==> ListingFailed(fetch, pages, p) || !RelistedIn(pages, p, selected)
  {
    hide Collect, Visited, CursorRepeats, AllNotes, CursorAt;
    var current;
    current, pages := ListSpendableNotes(fetch, p, cursors);
    if current.None? {
      return false, pages;
    }
    assert DistinctIds(current.value) by {
      ListingIsDistinct(AllNotes(pages), p, current.value);
    }
    ok := AllStillListed(current.value, selected);
    assert selected != [] ==> selected[0] in selected;
  }

  lemma ListingIsDistinct(notes: seq<ScanNote>, p: Params, out: seq<Spendable>)
    requires out == [] || Collect(notes, p) == Some(out)
    ensures DistinctIds(out)
  {
    CollectIsExact(notes, p);
  }

  /** The loop of the recheck, over the notes listed now. */
  method AllStillListed(current: seq<Spendable>, selected: seq<Note>) returns (ok: bool)
    requires DistinctIds(current)
    ensures ok <==> forall u :: u in selected ==> StillListed(current, u)
  {
    var available := NoteByOutpoint(current);
    for i := 0 to |selected|
      invariant forall k :: 0 <= k < i ==> StillListed(current, selected[k])
    {
      var u := selected[i];
      var key := NoteId(u.txid, u.index);
      if key !in available || available[key].value != u.value {
        assert u in selected;
        return false;
      }
      ghost var n :| n in current && n.Id() == key;
      NoteIdIsInjective(n.txid, n.index, u.txid, u.index);
      assert n.ToUnspent() == u;
    }
    return true;
  }
}
