/** Printing and reading unsigned decimal numbers. */
module Decimal {
  import opened Machine

  predicate IsDigit(c: char) {
    '0' <= c <= '9'
  }

  predicate AllDigits(s: string) {
    forall c :: c in s ==> IsDigit(c)
  }

  function DigitChar(d: nat): (c: char)
    requires d < 10
    ensures IsDigit(c)
  {
    '0' + d as char
  }

  function Format(n: nat): string {
    if n < 10 then [DigitChar(n)] else Format(n / 10) + [DigitChar(n % 10)]
  }

  /** The number a string of digits stands for. */
  function Value(s: string): nat
    requires AllDigits(s)
  {
    if s == [] then
      0
    else
      var last := s[|s| - 1];
      assert last in s && forall c :: c in s[..|s| - 1] ==> c in s;
      10 * Value(s[..|s| - 1]) + (last - '0') as int
  }

  /** The shape `0|[1-9][0-9]*`. */
  predicate Canonical(s: string) {
    s != [] && AllDigits(s) && (s[0] == '0' ==> |s| == 1)
  }

  /** `strconv.ParseUint` in base ten for values below `limit`. */
  function ParseUint(s: string, limit: nat): Option<nat> {
    if s == [] || !AllDigits(s) || Value(s) >= limit then None else Some(Value(s))
  }

  lemma ValueSnoc(s: string, d: char)
    requires AllDigits(s) && IsDigit(d)
    ensures AllDigits(s + [d])
    ensures Value(s + [d]) == 10 * Value(s) + (d - '0') as int
  {
    assert (s + [d])[..|s|] == s;
  }

  /** Reading what was printed gives the number back, and only canonical text is printed. */
  lemma {:induction false} FormatReadsBack(n: nat)
    ensures Canonical(Format(n))
    ensures Value(Format(n)) == n
    ensures n > 0 ==> Format(n)[0] != '0'
  {
    if n < 10 {
      assert Format(n)[..0] == [];
    } else {
      FormatReadsBack(n / 10);
      ValueSnoc(Format(n / 10), DigitChar(n % 10));
    }
  }

  /** Printing what was read gives the text back when the text is canonical. */
  lemma {:induction false} CanonicalPrintsBack(s: string)
    requires Canonical(s)
    ensures Format(Value(s)) == s
    ensures s[0] != '0' ==> Value(s) > 0
  {
    hide Format, Value;
    var front, last := s[..|s| - 1], s[|s| - 1];
    assert s == front + [last] && last in s;
    if front == [] {
      assert s == [last];
      SingleDigit(last);
    } else {
      assert forall c :: c in front ==> c in s;
      CanonicalPrintsBack(front);
      ValueSnoc(front, last);
      FormatSnoc(Value(front), last);
    }
  }

  lemma SingleDigit(d: char)
    requires IsDigit(d)
    ensures AllDigits([d]) && Value([d]) == (d - '0') as int && Format(Value([d])) == [d]
  {
    assert [d][..0] == [];
  }

  lemma FormatSnoc(n: nat, d: char)
    requires n > 0 && IsDigit(d)
    ensures Format(10 * n + (d - '0') as int) == Format(n) + [d]
  {
  }
}
