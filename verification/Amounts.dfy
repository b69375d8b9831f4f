/** Decimal ZEC amounts and their value in zatoshis. */
module Amounts {
  import opened Machine
  import opened Decimal

  const COIN: int := 100_000_000
  const FRACTION_DIGITS: int := 8

  function Zeros(n: nat): string {
    seq(n, _ => '0')
  }

  /** The position of the first point, or the length of the text. */
  function PointAt(s: string): (r: nat)
    ensures r <= |s|
    ensures '.' !in s[..r]
    ensures r < |s| ==> s[r] == '.'
  {
    if s == [] || s[0] == '.' then
      0
    else
      var r := PointAt(s[1..]);
      assert s[..r + 1] == [s[0]] + s[1..][..r];
      r + 1
  }

  function WholePart(s: string): string {
    s[..PointAt(s)]
  }

  function FractionPart(s: string): string {
    if PointAt(s) == |s| then "" else s[PointAt(s) + 1..]
  }

  /** The last addition is unchecked in the source and may wrap. */
  function ParseZECToZat(s: string): Option<uint64> {
    if s == "" || s[0] == '-' then
      None
    else
      var whole := if WholePart(s) == "" then "0" else WholePart(s);
      var frac := FractionPart(s);
      if |frac| > FRACTION_DIGITS then
        None
      else
        match (ParseUint(whole, TWO64), ParseUint(frac + Zeros(FRACTION_DIGITS - |frac|), TWO64))
        case (Some(w), Some(f)) =>
          if w > (TWO64 - 1) / COIN then None else Some((w * COIN + f) % TWO64)
        case _ => None
  }

  lemma PointSplits(whole: string, frac: string)
    requires '.' !in whole
    ensures WholePart(whole + "." + frac) == whole && FractionPart(whole + "." + frac) == frac
    ensures WholePart(whole) == whole && FractionPart(whole) == ""
  {
    var s := whole + "." + frac;
    assert s[|whole|] == '.';
    assert forall k :: 0 <= k < |whole| ==> s[k] == whole[k] && whole[k] in whole;
  }

  // ----- fixed-width fractions -----

  function Pow10(w: nat): nat {
    if w == 0 then 1 else 10 * Pow10(w - 1)
  }

  lemma EightDigits()
    ensures Pow10(FRACTION_DIGITS) == COIN
  {
    assert Pow10(4) == 10_000;
  }

  /** The last `w` decimal digits of `n`. */
  function Fixed(n: nat, w: nat): string {
    if w == 0 then [] else Fixed(n / 10, w - 1) + [DigitChar(n % 10)]
  }

  lemma {:induction false} FixedReadsBack(n: nat, w: nat)
    requires n < Pow10(w)
    ensures AllDigits(Fixed(n, w)) && |Fixed(n, w)| == w && Value(Fixed(n, w)) == n
  {
    if w > 0 {
      FixedReadsBack(n / 10, w - 1);
      ValueSnoc(Fixed(n / 10, w - 1), DigitChar(n % 10));
    }
  }

  /** An amount with eight decimals. */
  function Print(whole: nat, frac: nat): string {
    Format(whole) + "." + Fixed(frac, FRACTION_DIGITS)
  }

  /** What the parser makes of a number printed with eight decimals. */
  lemma ParsePrinted(whole: nat, frac: nat)
    requires frac < COIN
    ensures ParseZECToZat(Print(whole, frac)) ==
              if whole > (TWO64 - 1) / COIN then None else Some((whole * COIN + frac) % TWO64)
  {
    hide Format, Fixed, Pow10, PointAt;
    FormatReadsBack(whole);
    var w, f, s := Format(whole), Fixed(frac, FRACTION_DIGITS), Print(whole, frac);
    EightDigits();
    FixedReadsBack(frac, FRACTION_DIGITS);
    assert w[0] in w && s[0] == w[0];
    PointSplits(w, f);
    assert f + Zeros(0) == f;
  }

  /** Round trip: every 64-bit amount printed with eight decimals is read back. */
  lemma AmountRoundTrip(z: uint64)
    ensures ParseZECToZat(Print(z / COIN, z % COIN)) == Some(z)
  {
    hide Format, Fixed, Print, ParseZECToZat;
    ParsePrinted(z / COIN, z % COIN);
  }

  /** Trailing zeros of the fraction, up to eight digits in all, do not matter. */
  lemma TrailingZerosDoNotMatter(whole: string, frac: string, k: nat)
    requires '.' !in whole
    requires |frac| + k <= FRACTION_DIGITS
    ensures ParseZECToZat(whole + "." + frac + Zeros(k)) == ParseZECToZat(whole + "." + frac)
  {
    PointSplits(whole, frac);
    PointSplits(whole, frac + Zeros(k));
    assert whole + "." + frac + Zeros(k) == whole + "." + (frac + Zeros(k));
    assert frac + Zeros(k) + Zeros(FRACTION_DIGITS - |frac| - k) == frac + Zeros(FRACTION_DIGITS - |frac|);
  }

  /** An absent fraction reads like an empty one. */
  lemma PointIsOptional(whole: string)
    requires '.' !in whole && whole != ""
    ensures ParseZECToZat(whole + ".") == ParseZECToZat(whole)
  {
    PointSplits(whole, "");
    assert whole + "." + "" == whole + ".";
  }

  /**
   * The value in zatoshis of the number a text stands for, digits on both sides of the point and
   * at most eight of them after it; no digits at all stand for zero.
   */
  function TextValue(s: string): Option<nat> {
    var whole, frac := WholePart(s), FractionPart(s);
    if AllDigits(whole) && AllDigits(frac) && |frac| <= 8
    then Some(Value(whole) * 100_000_000 + Value(frac) * Pow10(8 - |frac|))
    else None
  }

  lemma {:induction false} ZerosScale(s: string, k: nat)
    ensures AllDigits(s + Zeros(k)) <==> AllDigits(s)
    ensures AllDigits(s) ==> Value(s + Zeros(k)) == Value(s) * Pow10(k)
  {
    if k == 0 {
      assert s + Zeros(k) == s;
    } else {
      ZerosScale(s, k - 1);
      assert s + Zeros(k) == s + Zeros(k - 1) + ['0'];
      assert forall c :: c in s + Zeros(k) <==> c in s + Zeros(k - 1) || c == '0';
      if AllDigits(s) {
        ValueSnoc(s + Zeros(k - 1), '0');
      }
    }
  }

  /** What the parser reads and what the text stands for are built from the same two numbers. */
  lemma PartsOfText(s: string)
    requires |FractionPart(s)| <= 8
    ensures var whole, frac := if WholePart(s) == "" then "0" else WholePart(s),
                               FractionPart(s) + Zeros(8 - |FractionPart(s)|);
            && |frac| == 8
            && (AllDigits(whole) <==> AllDigits(WholePart(s)))
            && (AllDigits(frac) <==> AllDigits(FractionPart(s)))
            && (AllDigits(whole) ==> Value(whole) == Value(WholePart(s)))
            && (AllDigits(frac) ==> Value(frac) == Value(FractionPart(s)) * Pow10(8 - |FractionPart(s)|) < COIN)
  {
    hide PointAt;
    var frac := FractionPart(s) + Zeros(8 - |FractionPart(s)|);
    ZerosScale(FractionPart(s), 8 - |FractionPart(s)|);
    assert "0"[..0] == "";
    if AllDigits(frac) {
      ValueIsBounded(frac);
      EightDigits();
    }
  }

  lemma {:induction false} ValueIsBounded(s: string)
    requires AllDigits(s)
    ensures Value(s) < Pow10(|s|)
  {
    if s != [] {
      var front, last := s[..|s| - 1], s[|s| - 1];
      assert last in s && forall c :: c in front ==> c in s;
      ValueIsBounded(front);
    }
  }

  /**
   * Which texts are accepted, and as what: exactly the unsigned ones with at most eight fraction
   * digits and a whole part the guard lets through, read modulo 2^64.
   */
  lemma AcceptedTexts(s: string)
    ensures ParseZECToZat(s) ==
              if s == "" || s[0] == '-' || TextValue(s).None? || TextValue(s).value / COIN > (TWO64 - 1) / COIN
              then None
              else Some(TextValue(s).value % TWO64)
  {
    hide Value, WholePart, FractionPart, Zeros, Pow10, AllDigits;
    if |FractionPart(s)| <= 8 {
      PartsOfText(s);
    }
  }

  /**
   * An accepted text is read exactly if and only if its value fits in 64 bits; the only texts
   * accepted with a wrong value have the largest whole part the guard lets through.
   */
  lemma AcceptedTextIsExactIff(s: string)
    requires ParseZECToZat(s).Some?
    ensures TextValue(s).Some?
    ensures var z, v := ParseZECToZat(s).value, TextValue(s).value;
            && (z == v <==> v < TWO64)
            && (v >= TWO64 ==> v / COIN == (TWO64 - 1) / COIN && z == v - TWO64)
  {
    hide Value, WholePart, FractionPart, Zeros, Pow10, AllDigits;
    PartsOfText(s);
  }

  /** An absent whole part reads like a zero. */
  lemma WholePartIsOptional(frac: string)
    ensures ParseZECToZat("." + frac) == ParseZECToZat("0." + frac)
  {
    PointSplits("", frac);
    PointSplits("0", frac);
    assert "" + "." + frac == "." + frac && "0" + "." + frac == "0." + frac;
  }

  /** The guard checks the multiplication only: one zatoshi past the 64-bit range reads as zero. */
  lemma WrappedAmountIsAccepted()
    ensures ParseZECToZat(Print(184_467_440_737, 9_551_616)) == Some(0)
  {
    hide Format, Fixed, Print, ParseZECToZat;
    ParsePrinted(184_467_440_737, 9_551_616);
  }
}
