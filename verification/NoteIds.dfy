/**
 * Canonical note ids `<64 lower-case hex>:<uint32>`, their validators, and exclusion of
 * reserved notes.
 */
module NoteIds {
  import opened Machine
  import opened Decimal
  import opened Notes

  const TXID_LENGTH: int := 64

  predicate IsLowerHex(c: char) {
    '0' <= c <= '9' || 'a' <= c <= 'f'
  }

  predicate IsTxid(s: string) {
    |s| == TXID_LENGTH && forall c :: c in s ==> IsLowerHex(c)
  }

  /** The key used for a note everywhere: as its id, as an outpoint and in every lookup map. */
  function NoteId(txid: string, index: nat): string {
    txid + ":" + Format(index)
  }

  /** The action-index group of the note-id pattern, if the text matches. */
  function MatchNoteId(s: string): Option<string> {
    if |s| > TXID_LENGTH + 1 && IsTxid(s[..TXID_LENGTH]) && s[TXID_LENGTH] == ':' && Canonical(s[TXID_LENGTH + 1..])
    then Some(s[TXID_LENGTH + 1..])
    else None
  }

  predicate Accepted(s: string) {
    match MatchNoteId(s)
    case None => false
    case Some(digits) => ParseUint(digits, TWO32).Some?
  }

  /** Different outpoints never print the same key, whatever the transaction id text is. */
  lemma NoteIdIsInjective(txid: string, index: nat, txid': string, index': nat)
    requires NoteId(txid, index) == NoteId(txid', index')
    ensures txid == txid' && index == index'
  {
    hide Format, Canonical, Value;
    FormatReadsBack(index);
    FormatReadsBack(index');
    FormatIsDigits(index);
    FormatIsDigits(index');
    var a, b := Format(index), Format(index');
    ColonIsLast(txid, a);
    ColonIsLast(txid', b);
    assert |txid| == |txid'|;
    assert txid == NoteId(txid, index)[..|txid|] == txid';
    assert a == NoteId(txid, index)[|txid| + 1..] == b;
  }

  lemma FormatIsDigits(n: nat)
    ensures AllDigits(Format(n))
  {
    FormatReadsBack(n);
  }

  lemma ColonIsLast(txid: string, digits: string)
    requires AllDigits(digits)
    ensures var s := txid + ":" + digits;
            s[|txid|] == ':' && forall k :: |txid| < k < |s| ==> s[k] != ':'
  {
    var s := txid + ":" + digits;
    forall k | |txid| < k < |s|
      ensures s[k] != ':'
    {
      assert s[k] == digits[k - |txid| - 1] && s[k] in digits;
    }
  }

  ghost predicate LowerHex64(s: string) {
    |s| == 64 && forall c :: c in s ==> '0' <= c <= '9' || 'a' <= c <= 'f'
  }

  /** The ids the checks accept are exactly the printed outpoints with a 32-byte txid and a uint32 index. */
  lemma AcceptedIffPrinted(s: string)
    ensures Accepted(s) <==> exists txid: string, index: uint32 ::
                               LowerHex64(txid) && s == txid + ":" + Format(index)
  {
    if Accepted(s) {
      var txid, digits := s[..TXID_LENGTH], s[TXID_LENGTH + 1..];
      CanonicalPrintsBack(digits);
      var index: uint32 := Value(digits);
      assert LowerHex64(txid) && s == txid + ":" + Format(index);
    }
    forall txid: string, index: uint32 | LowerHex64(txid) && s == txid + ":" + Format(index)
      ensures Accepted(s)
    {
      FormatReadsBack(index);
      assert s[..TXID_LENGTH] == txid && s[TXID_LENGTH + 1..] == Format(index);
    }
  }

  /** What both id validators check. */
  ghost predicate ValidIds(ids: seq<string>) {
    (forall i :: 0 <= i < |ids| ==> Accepted(ids[i])) && Distinct(ids)
  }

  function IdSet(ids: seq<string>): set<string> {
    set id | id in ids
  }

  /** Succeeds exactly on distinct canonical ids, and then returns them as a set. */
  method ValidateExcludedNoteIds(noteIds: seq<string>) returns (r: Option<set<string>>)
    ensures r.Some? <==> ValidIds(noteIds)
    ensures r.Some? ==> r.value == IdSet(noteIds)
  {
    var seen: set<string> := {};
    for i := 0 to |noteIds|
      invariant seen == IdSet(noteIds[..i])
      invariant ValidIds(noteIds[..i])
    {
      var id := noteIds[i];
      if id == "" || MatchNoteId(id).None? {
        return None;
      }
      if ParseUint(MatchNoteId(id).value, TWO32).None? {
        return None;
      }
      if id in seen {
        var j :| 0 <= j < i && noteIds[..i][j] == id;
        assert noteIds[j] == noteIds[i];
        return None;
      }
      assert forall j :: 0 <= j < i ==> noteIds[..i][j] != id;
      seen := seen + {id};
      assert noteIds[..i + 1] == noteIds[..i] + [id];
    }
    assert noteIds[..|noteIds|] == noteIds;
    return Some(seen);
  }

  // ----- filters over the candidates -----

  /** The notes for which `keep` holds, in their order. */
  function Filter(notes: seq<Note>, keep: Note -> bool): seq<Note> {
    if notes == [] then
      []
    else
      var front, last := Filter(notes[..|notes| - 1], keep), notes[|notes| - 1];
      if keep(last) then front + [last] else front
  }

  /** A filter keeps every occurrence of the notes it keeps, and nothing else. */
  lemma {:induction false} FilterKeeps(notes: seq<Note>, keep: Note -> bool)
    ensures forall x :: multiset(Filter(notes, keep))[x] == if keep(x) then multiset(notes)[x] else 0
    ensures multiset(Filter(notes, keep)) <= multiset(notes)
  {
    if notes != [] {
      FilterKeeps(notes[..|notes| - 1], keep);
      assert notes == notes[..|notes| - 1] + [notes[|notes| - 1]];
    }
  }

  /** A filter keeps the order: what it keeps of two listings in a row comes in a row. */
  lemma {:induction false} FilterKeepsOrder(a: seq<Note>, b: seq<Note>, keep: Note -> bool)
    ensures Filter(a + b, keep) == Filter(a, keep) + Filter(b, keep)
  {
    if b == [] {
      assert a + b == a;
    } else {
      assert (a + b)[..|a + b| - 1] == a + b[..|b| - 1];
      FilterKeepsOrder(a, b[..|b| - 1], keep);
    }
  }

  function AtLeast(minNote: uint64): Note -> bool {
    (n: Note) => n.value >= minNote
  }

  function NotExcluded(excluded: set<string>): Note -> bool {
    (n: Note) => NoteId(n.txid, n.index) !in excluded
  }

  lemma {:induction false} FilterAll(notes: seq<Note>, keep: Note -> bool)
    requires forall x :: x in notes ==> keep(x)
    ensures Filter(notes, keep) == notes
  {
    if notes != [] {
      assert notes[|notes| - 1] in notes;
      FilterAll(notes[..|notes| - 1], keep);
    }
  }

  method FilterNotesMinValue(notes: seq<Note>, minNote: uint64) returns (out: seq<Note>)
    ensures out == Filter(notes, AtLeast(minNote))
  {
    if minNote == 0 {
      FilterAll(notes, AtLeast(minNote));
      return notes;
    }
    out := [];
    for i := 0 to |notes|
      invariant out == Filter(notes[..i], AtLeast(minNote))
    {
      assert notes[..i + 1][..i] == notes[..i];
      if notes[i].value >= minNote {
        out := out + [notes[i]];
      }
    }
    assert notes[..|notes|] == notes;
  }

  method FilterExcludedUnspentNotes(notes: seq<Note>, excluded: set<string>) returns (out: seq<Note>)
    ensures out == Filter(notes, NotExcluded(excluded))
  {
    if excluded == {} {
      FilterAll(notes, NotExcluded(excluded));
      return notes;
    }
    out := [];
    for i := 0 to |notes|
      invariant out == Filter(notes[..i], NotExcluded(excluded))
    {
      assert notes[..i + 1][..i] == notes[..i];
      if NoteId(notes[i].txid, notes[i].index) in excluded {
        continue;
      }
      out := out + [notes[i]];
    }
    assert notes[..|notes|] == notes;
  }
}
