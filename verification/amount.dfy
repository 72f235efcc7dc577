/**
 * The text-to-number conversion applied to the "Amount of Crypto" column.
 * The spreadsheet hands every cell back as text; the ledger converts the
 * amount column to a number, and a cell that is not a number stops the load.
 * A decimal literal is an optional sign, a run of digits, and optionally a
 * point followed by a second run of digits; one of the two runs may be empty
 * but not both. Its value is kept exactly, as a digit string and a scale.
 */
module Amount {
  import opened Wrappers

  /** mantissa / 10^scale, exactly. */
  datatype Decimal = Decimal(mantissa: int, scale: nat) {
    function Value(): real {
      mantissa as real / Pow10(scale) as real
    }
  }

  predicate IsDigit(c: char) {
    '0' <= c <= '9'
  }

  predicate AllDigits(s: string) {
    forall i :: 0 <= i < |s| ==> IsDigit(s[i])
  }

  function Pow10(k: nat): (p: nat)
    ensures p >= 1
  {
    if k == 0 then 1 else 10 * Pow10(k - 1)
  }

  /** The number a run of decimal digits denotes, most significant digit first. */
  function DigitsValue(s: string): nat
    requires AllDigits(s)
  {
    if s == [] then 0 else 10 * DigitsValue(s[..|s| - 1]) + (s[|s| - 1] as int - '0' as int)
  }

  /** Position of the first decimal point in `s`, or |s| when there is none. */
  function FirstPoint(s: string): (d: nat)
    ensures d <= |s|
    ensures d < |s| ==> s[d] == '.'
    ensures forall i :: 0 <= i < d ==> s[i] != '.'
  {
    if s == [] then 0 else if s[0] == '.' then 0 else 1 + FirstPoint(s[1..])
  }

  /** The number written with integer digits `whole` and fraction digits `frac`. */
  function ReadParts(whole: string, frac: string): Option<Decimal>
  {
    if AllDigits(whole) && AllDigits(frac) && |whole| + |frac| > 0 then
      Some(Decimal(DigitsValue(whole + frac), |frac|))
    else
      None
  }

  /** Reads an unsigned decimal literal: digits, optionally a point and more digits. */
  function ParseUnsigned(s: string): Option<Decimal>
  {
    var d := FirstPoint(s);
    ReadParts(s[..d], if d < |s| then s[d + 1..] else "")
  }

  /** Separates a leading sign from the rest of the text: true for a minus. */
  function SplitSign(s: string): (bool, string)
  {
    if |s| > 0 && s[0] == '-' then (true, s[1..])
    else if |s| > 0 && s[0] == '+' then (false, s[1..])
    else (false, s)
  }

  /** Converts an amount cell to a number; None when the text is not a number. */
  function ParseAmount(s: string): Option<Decimal>
  {
    var (negative, digits) := SplitSign(s);
    match ParseUnsigned(digits)
    case Some(d) => Some(if negative then Decimal(-d.mantissa, d.scale) else d)
    case None => None
  }

  /** The unsigned literals, described character by character: at least one
      digit, nothing but digits and points, and at most one point. */
  predicate UnsignedLiteral(s: string) {
    && (exists i :: 0 <= i < |s| && IsDigit(s[i]))
    && (forall i :: 0 <= i < |s| ==> IsDigit(s[i]) || s[i] == '.')
    && (forall i, j :: 0 <= i < j < |s| && s[i] == '.' ==> s[j] != '.')
  }

  /** The literals accepted as amounts: an unsigned literal with an optional sign. */
  predicate AmountLiteral(s: string) {
    || UnsignedLiteral(s)
    || (|s| > 0 && (s[0] == '-' || s[0] == '+') && UnsignedLiteral(s[1..]))
  }

  lemma ParseUnsignedAccepts(s: string)
    ensures ParseUnsigned(s).Some? <==> UnsignedLiteral(s)
  {
  }

  /** A cell converts exactly when it is a signed decimal literal; every other
      text, the empty cell included, is rejected rather than read as zero. */
  lemma ParseAmountAccepts(s: string)
    ensures ParseAmount(s).Some? <==> AmountLiteral(s)
  {
    ParseUnsignedAccepts(s);
    if |s| > 0 {
      ParseUnsignedAccepts(s[1..]);
    }
  }

  // ---- Writing an amount as a fixed-point decimal, and reading it back ----

  function DigitChar(n: nat): char
    requires n < 10
  {
    ('0' as int + n) as char
  }

  /** The decimal digits of n, most significant first, without leading zeros. */
  function NatDigits(n: nat): (s: string)
    ensures |s| >= 1 && AllDigits(s)
  {
    if n < 10 then [DigitChar(n)] else NatDigits(n / 10) + [DigitChar(n % 10)]
  }

  lemma {:induction false} NatDigitsValue(n: nat)
    ensures DigitsValue(NatDigits(n)) == n
  {
    if n >= 10 {
      NatDigitsValue(n / 10);
      var s := NatDigits(n);
      assert s[..|s| - 1] == NatDigits(n / 10);
    }
  }

  function Zeros(k: nat): (s: string)
    ensures |s| == k && AllDigits(s)
  {
    seq(k, _ => '0')
  }

  lemma DigitsValueSnoc(s: string, c: char)
    requires AllDigits(s) && IsDigit(c)
    ensures AllDigits(s + [c])
    ensures DigitsValue(s + [c]) == 10 * DigitsValue(s) + (c as int - '0' as int)
  {
    assert (s + [c])[..|s|] == s;
  }

  lemma {:induction false} DigitsValueAppend(a: string, b: string)
    requires AllDigits(a) && AllDigits(b)
    ensures AllDigits(a + b)
    ensures DigitsValue(a + b) == DigitsValue(a) * Pow10(|b|) + DigitsValue(b)
  {
    if b == [] {
      assert a + b == a;
    } else {
      var b', c := b[..|b| - 1], b[|b| - 1];
      assert b == b' + [c];
      assert a + b == (a + b') + [c];
      DigitsValueAppend(a, b');
      DigitsValueSnoc(a + b', c);
      DigitsValueSnoc(b', c);
      assert Pow10(|b|) == 10 * Pow10(|b'|);
      ShiftDigit(DigitsValue(a), Pow10(|b'|), DigitsValue(a + b'), DigitsValue(b'), c as int - '0' as int);
    }
  }

  lemma ShiftDigit(x: int, p: int, v: int, w: int, c: int)
    requires v == x * p + w
    ensures 10 * v + c == x * (10 * p) + (10 * w + c)
  {
  }

  lemma {:induction false} DigitsValueZeros(k: nat)
    ensures DigitsValue(Zeros(k)) == 0
  {
    if k > 0 {
      DigitsValueZeros(k - 1);
      assert Zeros(k)[..k - 1] == Zeros(k - 1);
    }
  }

  /** The digits of n, padded on the left with zeros to at least `width` digits. */
  function PaddedDigits(n: nat, width: nat): (s: string)
    ensures |s| >= width && |s| >= 1 && AllDigits(s)
  {
    var raw := NatDigits(n);
    if |raw| < width then Zeros(width - |raw|) + raw else raw
  }

  lemma PaddedDigitsValue(n: nat, width: nat)
    ensures DigitsValue(PaddedDigits(n, width)) == n
  {
    var raw := NatDigits(n);
    NatDigitsValue(n);
    if |raw| < width {
      var z := Zeros(width - |raw|);
      DigitsValueAppend(z, raw);
      DigitsValueZeros(width - |raw|);
      assert DigitsValue(z) * Pow10(|raw|) == 0;
    }
  }

  /** `digits` with a decimal point inserted before its last k digits. */
  function InsertPoint(digits: string, k: nat): string
    requires |digits| > k
  {
    if k == 0 then digits else digits[..|digits| - k] + "." + digits[|digits| - k..]
  }

  /** The unsigned text of n / 10^k with exactly k digits after the point. */
  function FixedDigits(n: nat, k: nat): string
  {
    InsertPoint(PaddedDigits(n, k + 1), k)
  }

  /** The text of m / 10^k with exactly k digits after the point. */
  function FixedPoint(m: int, k: nat): string
  {
    if m < 0 then "-" + FixedDigits(-m, k) else FixedDigits(m, k)
  }

  lemma ParseUnsignedNoPoint(s: string)
    requires AllDigits(s)
    ensures ParseUnsigned(s) == ReadParts(s, "")
  {
    var d := FirstPoint(s);
    assert forall i :: 0 <= i < |s| ==> s[i] != '.';
    assert d == |s|;
    assert s[..d] == s;
  }

  lemma ParseUnsignedSplit(w: string, f: string)
    requires AllDigits(w)
    ensures ParseUnsigned(w + "." + f) == ReadParts(w, f)
  {
    var s := w + "." + f;
    var d := FirstPoint(s);
    assert s[|w|] == '.';
    assert forall i :: 0 <= i < |w| ==> s[i] == w[i] && s[i] != '.';
    assert d == |w|;
    assert s[..d] == w;
    assert s[d + 1..] == f;
  }

  lemma InsertPointParse(digits: string, k: nat)
    requires |digits| > k && AllDigits(digits)
    ensures |InsertPoint(digits, k)| >= 1 && IsDigit(InsertPoint(digits, k)[0])
    ensures ParseUnsigned(InsertPoint(digits, k)) == Some(Decimal(DigitsValue(digits), k))
  {
    if k == 0 {
      ParseUnsignedNoPoint(digits);
      assert digits + "" == digits;
    } else {
      var cut := |digits| - k;
      var w, f := digits[..cut], digits[cut..];
      assert w + f == digits;
      ParseUnsignedSplit(w, f);
      assert InsertPoint(digits, k)[0] == w[0];
    }
  }

  lemma FixedDigitsParse(n: nat, k: nat)
    ensures |FixedDigits(n, k)| >= 1 && IsDigit(FixedDigits(n, k)[0])
    ensures ParseUnsigned(FixedDigits(n, k)) == Some(Decimal(n, k))
  {
    InsertPointParse(PaddedDigits(n, k + 1), k);
    PaddedDigitsValue(n, k + 1);
  }

  lemma ParseAmountMinus(s: string, m: int, k: nat)
    requires ParseUnsigned(s) == Some(Decimal(m, k))
    ensures ParseAmount("-" + s) == Some(Decimal(-m, k))
  {
    assert SplitSign("-" + s) == (true, s);
  }

  lemma FixedPointNegative(n: nat, k: nat)
    ensures ParseAmount("-" + FixedDigits(n, k)) == Some(Decimal(-(n as int), k))
  {
    var s := FixedDigits(n, k);
    FixedDigitsParse(n, k);
    ParseAmountMinus(s, n, k);
  }

  lemma FixedPointNonNegative(n: nat, k: nat)
    ensures ParseAmount(FixedDigits(n, k)) == Some(Decimal(n, k))
  {
    FixedDigitsParse(n, k);
    ParseAmountUnsigned(FixedDigits(n, k), Decimal(n, k));
  }

  lemma ParseAmountUnsigned(s: string, d: Decimal)
    requires ParseUnsigned(s) == Some(d) && |s| > 0 && IsDigit(s[0])
    ensures ParseAmount(s) == Some(d)
  {
  }

  /** Writing m / 10^k with k decimals and reading the text back gives m / 10^k:
      the same digits at the same scale, so the same number. */
  lemma FixedPointRoundTrip(m: int, k: nat)
    ensures ParseAmount(FixedPoint(m, k)) == Some(Decimal(m, k))
  {
    if m < 0 {
      FixedPointNegative(-m, k);
    } else {
      FixedPointNonNegative(m, k);
    }
  }
}
