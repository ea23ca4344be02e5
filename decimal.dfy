/**
 * Exact decimal numbers, standing in for the Python `int`/`float` values the tools
 * parse, add, compare and print. A decimal keeps the number of digits written after
 * its point, which is what the tools call its precision.
 */
module Decimal {
  import opened Wrappers
  import opened Text

  /** The number mant / 10^scale. */
  datatype Dec = Dec(mant: int, scale: nat)

  ghost function Value(d: Dec): real {
    d.mant as real / Pow10(d.scale) as real
  }

  /** The mantissa of d rewritten at a finer scale s. */
  function Aligned(d: Dec, s: nat): int
    requires d.scale <= s
  {
    d.mant * Pow10(s - d.scale)
  }

  lemma AlignedValue(d: Dec, s: nat)
    requires d.scale <= s
    ensures Aligned(d, s) as real / Pow10(s) as real == Value(d)
  {
    var k := Pow10(s - d.scale);
    var p := Pow10(d.scale);
    Pow10Split(d.scale, s);
    ScaledQuotient(Aligned(d, s), Pow10(s), d.mant, p, k);
  }

  lemma ScaledQuotient(a: int, q: int, m: int, p: int, k: int)
    requires k > 0 && p > 0 && a == m * k && q == p * k
    ensures a as real / q as real == m as real / p as real
  {
    IntRealMul(m, k);
    IntRealMul(p, k);
    RealCancel(m as real, p as real, k as real);
  }

  lemma IntRealMul(x: int, y: int)
    ensures (x * y) as real == x as real * y as real
  {
  }

  lemma RealCancel(m: real, p: real, k: real)
    requires p > 0.0 && k > 0.0
    ensures (m * k) / (p * k) == m / p
  {
    var x := m / p;
    assert x * p == m;
    assert m * k == x * (p * k);
  }

  lemma RealAddFrac(a: real, b: real, p: real)
    requires p > 0.0
    ensures (a + b) / p == a / p + b / p
  {
  }

  lemma RealLessFrac(a: real, b: real, p: real)
    requires p > 0.0
    ensures a < b <==> a / p < b / p
  {
    assert (a / p) * p == a;
    assert (b / p) * p == b;
  }

  /** Euclidean division by a positive power of ten splits a natural into quotient and remainder. */
  lemma DivModPow(m: nat, p: int)
    requires p > 0
    ensures m / p >= 0 && 0 <= m % p < p
    ensures (m / p) * p + m % p == m
  {
  }

  function Add(a: Dec, b: Dec): (r: Dec)
    ensures r.scale == if a.scale < b.scale then b.scale else a.scale
  {
    var s := if a.scale < b.scale then b.scale else a.scale;
    Dec(Aligned(a, s) + Aligned(b, s), s)
  }

  /** Adding exact decimals adds their values. */
  lemma AddValue(a: Dec, b: Dec)
    ensures Value(Add(a, b)) == Value(a) + Value(b)
  {
    var s := if a.scale < b.scale then b.scale else a.scale;
    var x, y := Aligned(a, s), Aligned(b, s);
    AlignedValue(a, s);
    AlignedValue(b, s);
    assert Aligned(Add(a, b), s) == x + y;
    RealAddFrac(x as real, y as real, Pow10(s) as real);
  }

  /** Strict comparison of the exact values. */
  predicate Less(a: Dec, b: Dec) {
    var s := if a.scale < b.scale then b.scale else a.scale;
    Aligned(a, s) < Aligned(b, s)
  }

  lemma LessValue(a: Dec, b: Dec)
    ensures Less(a, b) <==> Value(a) < Value(b)
  {
    var s := if a.scale < b.scale then b.scale else a.scale;
    AlignedValue(a, s);
    AlignedValue(b, s);
    RealLessFrac(Aligned(a, s) as real, Aligned(b, s) as real, Pow10(s) as real);
  }

  /** Python's `min(x, y)`: y only when it is strictly smaller, so ties keep x. */
  function Min(x: Dec, y: Dec): (r: Dec)
    ensures r == x || r == y
  {
    if Less(y, x) then y else x
  }

  /** Python's `max(x, y)`: y only when it is strictly larger, so ties keep x. */
  function Max(x: Dec, y: Dec): (r: Dec)
    ensures r == x || r == y
  {
    if Less(x, y) then y else x
  }

  /** The minimum is no larger than either argument, and the maximum no smaller. */
  lemma MinMaxValue(x: Dec, y: Dec)
    ensures Value(Min(x, y)) <= Value(x) && Value(Min(x, y)) <= Value(y)
    ensures Value(Max(x, y)) >= Value(x) && Value(Max(x, y)) >= Value(y)
  {
    LessValue(x, y);
    LessValue(y, x);
  }

  /** A parsed numeral: its exact value, and whether Python's `int()` also accepts it. */
  datatype Numeral = Numeral(value: Dec, integral: bool)

  function Signed(negative: bool, n: nat): int {
    if negative then -(n as int) else n
  }

  /** A leading sign, if any, and the text after it. */
  function StripSign(s: string): (bool, string) {
    if |s| > 0 && (s[0] == '-' || s[0] == '+') then (s[0] == '-', s[1..]) else (false, s)
  }

  /**
   * The numerals `[+-]?(\d+(\.\d*)?|\.\d+)`, the part of Python's `float()` syntax this
   * model covers; `int()` accepts exactly those without a point. The scale is the
   * number of digits after the point.
   */
  function ParseDecimal(s: string): (r: Option<Numeral>)
    ensures r.Some? && r.value.integral ==> r.value.value.scale == 0
  {
    var (negative, body) := StripSign(s);
    match ParseUnsigned(body)
    case None => None
    case Some(Numeral(Dec(mant, scale), integral)) => Some(Numeral(Dec(Signed(negative, mant), scale), integral))
  }

  /** An unsigned numeral `\d+(\.\d*)?|\.\d+`; its mantissa is the number its digits spell once the point is dropped. */
  function ParseUnsigned(body: string): (r: Option<Numeral>)
    ensures r.Some? ==> r.value.value.mant >= 0
    ensures r.Some? && r.value.integral ==> r.value.value.scale == 0
  {
    var i := FirstSep(body, Char('.'));
    var whole := body[..i];
    if !AllDigits(whole) then None
    else if i == |body| then
      if whole == [] then None
      else Some(Numeral(Dec(DigitsValue(whole), 0), true))
    else
      var frac := body[i + 1..];
      if !AllDigits(frac) || (whole == [] && frac == []) then None
      else
        DigitsValueAppend(whole, frac);
        Some(Numeral(Dec(DigitsValue(whole + frac), |frac|), false))
  }

  /** Python's `format(x, ".Nf")` for a value that needs at most N digits after the point. */
  function Render(d: Dec, places: nat): (text: string)
    requires d.scale <= places
    ensures |text| > 0
  {
    ShowScaled(Aligned(d, places), places)
  }

  /** The integer n shown with a point `places` digits from its right end, zero-padded. */
  function ShowScaled(n: int, places: nat): (text: string)
    ensures |text| > 0
  {
    var m: nat := if n < 0 then -n else n;
    var p := Pow10(places);
    DivModPow(m, p);
    var whole := ShowNat(m / p);
    var digits := if places == 0 then whole else whole + "." + PadNat(m % p, places);
    SignText(n < 0) + digits
  }

  /** Printing at a precision no smaller than the scale loses nothing: parsing gives the value back. */
  lemma RenderParses(d: Dec, places: nat)
    requires d.scale <= places
    ensures ParseDecimal(Render(d, places)) == Some(Numeral(Dec(Aligned(d, places), places), places == 0))
    ensures Value(Dec(Aligned(d, places), places)) == Value(d)
  {
    AlignedValue(d, places);
    var negative, m, q, r := ScaledParts(Aligned(d, places), places);
    if places == 0 {
      ParseWhole(negative, ShowNat(q));
    } else {
      ParsePadded(negative, q, r, m, places);
    }
  }

  /** The shown text is a sign, the whole part and, when there are places, a point and the padded fraction. */
  lemma ScaledParts(n: int, places: nat) returns (negative: bool, m: nat, q: nat, r: nat)
    ensures Signed(negative, m) == n && m == q * Pow10(places) + r && r < Pow10(places)
    ensures places == 0 ==> ShowScaled(n, places) == SignText(negative) + ShowNat(q) && q == m
    ensures places > 0 ==> ShowScaled(n, places) == SignText(negative) + (ShowNat(q) + "." + PadNat(r, places))
  {
    m := if n < 0 then -n else n;
    var p := Pow10(places);
    DivModPow(m, p);
    negative, q, r := n < 0, m / p, m % p;
  }

  /** A whole part, a point and a fraction padded to the precision read back as one scaled numeral. */
  lemma ParsePadded(negative: bool, q: nat, r: nat, m: nat, places: nat)
    requires places > 0 && r < Pow10(places) && m == q * Pow10(places) + r
    ensures ParseDecimal(SignText(negative) + (ShowNat(q) + "." + PadNat(r, places)))
      == Some(Numeral(Dec(Signed(negative, m), places), false))
  {
    var whole, frac := ShowNat(q), PadNat(r, places);
    ParseFraction(negative, whole, frac);
    DigitsValueAppend(whole, frac);
  }

  function SignText(negative: bool): string {
    if negative then "-" else ""
  }

  lemma ParseWhole(negative: bool, whole: string)
    requires |whole| > 0 && AllDigits(whole)
    ensures ParseDecimal(SignText(negative) + whole) == Some(Numeral(Dec(Signed(negative, DigitsValue(whole)), 0), true))
  {
    SignSplit(negative, whole);
    assert SepFree(whole, Char('.'));
    FirstSepFree(whole, Char('.'));
    assert whole[..|whole|] == whole;
    assert ParseUnsigned(whole) == Some(Numeral(Dec(DigitsValue(whole), 0), true));
  }

  lemma ParseFraction(negative: bool, whole: string, frac: string)
    requires |whole| > 0 && AllDigits(whole) && AllDigits(frac)
    ensures ParseDecimal(SignText(negative) + (whole + "." + frac))
      == Some(Numeral(Dec(Signed(negative, DigitsValue(whole + frac)), |frac|), false))
  {
    var body := whole + "." + frac;
    assert body[0] == whole[0];
    SignSplit(negative, body);
    assert SepFree(whole, Char('.'));
    FirstSepAfter(whole, '.', frac, Char('.'));
    assert body[..|whole|] == whole;
    assert body[|whole| + 1..] == frac;
    DigitsValueAppend(whole, frac);
    assert ParseUnsigned(body) == Some(Numeral(Dec(DigitsValue(whole + frac), |frac|), false));
  }

  /** A sign written before a digit is the only sign read back. */
  lemma SignSplit(negative: bool, body: string)
    requires |body| > 0 && IsDigit(body[0])
    ensures StripSign(SignText(negative) + body) == (negative, body)
  {
    var s := SignText(negative) + body;
    if negative {
      assert s[0] == '-' && s[1..] == body;
    } else {
      assert s == body;
    }
  }
}
