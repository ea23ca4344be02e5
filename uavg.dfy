/**
 * The averaging tool's input side: each line that holds anything holds one number,
 * read as an integer when Python's `int()` accepts it and the integer is exactly a double,
 * and as a float otherwise.
 */
module Uavg {
  import opened Wrappers
  import opened Text
  import opened Decimal
  import Usum

  /** A Python number as to_num returns it. */
  datatype Number = Int(i: int) | Float(x: Dec)

  ghost function NumValue(x: Number): real {
    match x
    case Int(i) => i as real
    case Float(d) => Value(d)
  }

  /** The message of the `ValueError` that `float()` raises. */
  function FloatError(value: string): string {
    "could not convert string to float: '" + value + "'"
  }

  const TooMany := "Too many values on line"

  /**
   * Whether the integer n is a double: `float()` rounds an integral numeral to the
   * nearest double, and `int(value) == float(value)` holds exactly when nothing was lost.
   */
  predicate ExactDouble(n: int) {
    MagnitudeExact(if n < 0 then -n else n, 0)
  }

  /** m * 2^shifts has a 53-bit significand and is no larger than the largest finite double, (2^53 - 1) * 2^971. */
  predicate MagnitudeExact(m: nat, shifts: nat)
    decreases m
  {
    if m < 0x20_0000_0000_0000 then shifts <= 971
    else m % 2 == 0 && MagnitudeExact(m / 2, shifts + 1)
  }

  /** Every integer below 2^53 in magnitude is a double. */
  lemma SmallExact(n: int)
    requires -0x20_0000_0000_0000 < n < 0x20_0000_0000_0000
    ensures ExactDouble(n)
  {
  }

  /** k * 2^e. */
  function Scaled(k: nat, e: nat): nat {
    if e == 0 then k else 2 * Scaled(k, e - 1)
  }

  /** The doubles' own definition: a significand below 2^53 times a power of two, at most the largest finite double. */
  ghost predicate IsDouble(n: int) {
    exists k: nat, e: nat :: k < 0x20_0000_0000_0000 && e <= 971 && (if n < 0 then -n else n) == Scaled(k, e)
  }

  /** Halving away the even part decides exactly whether an integer is a double. */
  lemma ExactDoubleIff(n: int)
    ensures ExactDouble(n) <==> IsDouble(n)
  {
    var m: nat := if n < 0 then -n else n;
    if ExactDouble(n) {
      var k, e := ExactScaled(m, 0);
      assert k < 0x20_0000_0000_0000 && e <= 971 && m == Scaled(k, e);
    }
    if IsDouble(n) {
      var k: nat, e: nat :| k < 0x20_0000_0000_0000 && e <= 971 && m == Scaled(k, e);
      ScaledExact(k, e, 0);
    }
  }

  /** The halving stops at a significand below 2^53 after at most 971 more steps. */
  lemma {:induction false} ExactScaled(m: nat, shifts: nat) returns (k: nat, e: nat)
    requires MagnitudeExact(m, shifts)
    ensures k < 0x20_0000_0000_0000 && shifts + e <= 971 && m == Scaled(k, e)
    decreases m
  {
    if m < 0x20_0000_0000_0000 {
      k, e := m, 0;
    } else {
      var e';
      k, e' := ExactScaled(m / 2, shifts + 1);
      e := e' + 1;
    }
  }

  /** A significand below 2^53 shifted at most 971 places survives the halving. */
  lemma {:induction false} ScaledExact(k: nat, e: nat, shifts: nat)
    requires k < 0x20_0000_0000_0000 && shifts + e <= 971
    ensures MagnitudeExact(Scaled(k, e), shifts)
    decreases e
  {
    if e > 0 && Scaled(k, e) >= 0x20_0000_0000_0000 {
      ScaledExact(k, e - 1, shifts + 1);
    }
  }

  /**
   * to_num: `float()` must accept the text; the number is an integer when `int()` accepts
   * the text too and the integer compares equal to the double `float()` read, that is,
   * when it is a double.
   */
  function ToNum(value: string): (r: Result<Number, string>)
    ensures r.Err? <==> ParseDecimal(value).None?
    ensures r.Err? ==> r.error == FloatError(value)
    ensures r.Ok? ==> NumValue(r.value) == Value(ParseDecimal(value).value.value)
  {
    match ParseDecimal(value)
    case None => Err(FloatError(value))
    case Some(n) =>
      if n.integral && ExactDouble(n.value.mant) then
        assert Value(n.value) == n.value.mant as real;
        Ok(Int(n.value.mant))
      else Ok(Float(n.value))
  }

  /** The result is an integer exactly when `int()` accepts the text and its integer is a double. */
  lemma ToNumInt(value: string)
    ensures (ToNum(value).Ok? && ToNum(value).value.Int?)
      <==> (ParseDecimal(value).Some? && ParseDecimal(value).value.integral
            && ExactDouble(ParseDecimal(value).value.value.mant))
  {
  }

  /** A written integer is read back as an integer when it is a double, and as a float of the same value otherwise. */
  lemma ToNumShown(n: int)
    ensures ToNum(SignText(n < 0) + ShowNat(if n < 0 then -n else n))
      == Ok(if ExactDouble(n) then Int(n) else Float(Dec(n, 0)))
  {
    var m: nat := if n < 0 then -n else n;
    ParseWhole(n < 0, ShowNat(m));
  }

  /** 2^53 + 1 is the first integer that to_num returns as a float, while its even neighbour stays an integer. */
  lemma PastDoublePrecision()
    ensures ToNum(ShowNat(9007199254740993)) == Ok(Float(Dec(9007199254740993, 0)))
    ensures ToNum(ShowNat(9007199254740994)) == Ok(Int(9007199254740994))
  {
    ToNumShown(9007199254740993);
    ToNumShown(9007199254740994);
    assert SignText(false) + ShowNat(9007199254740993) == ShowNat(9007199254740993);
    assert SignText(false) + ShowNat(9007199254740994) == ShowNat(9007199254740994);
  }

  /**
   * A number printed without digits after the point reads back as that integer when it is
   * a double, and a number printed with them as a float; either way with the same value.
   */
  lemma ToNumRender(d: Dec, places: nat)
    requires d.scale <= places
    ensures places == 0 ==> ToNum(Render(d, places)) == Ok(if ExactDouble(d.mant) then Int(d.mant) else Float(Dec(d.mant, 0)))
    ensures places > 0 ==> ToNum(Render(d, places)).Ok? && ToNum(Render(d, places)).value.Float?
    ensures ToNum(Render(d, places)).Ok? && NumValue(ToNum(Render(d, places)).value) == Value(d)
  {
    RenderParses(d, places);
    if places == 0 {
      assert Aligned(d, 0) == d.mant;
    }
  }

  /** What one line adds to the numbers read so far: nothing when it is blank. */
  function ReadLine(numbers: seq<Number>, line: string, linenum: nat): Result<seq<Number>, string> {
    var toks := Words(line);
    if toks == [] then Ok(numbers)
    else if |toks| != 1 then Err(Usum.LineError(linenum, TooMany))
    else match ToNum(toks[0])
      case Err(e) => Err(Usum.LineError(linenum, e))
      case Ok(x) => Ok(numbers + [x])
  }

  /** The numbers to_list returns for its lines, or the error it raises first. */
  function NumbersOf(lines: seq<string>): Result<seq<Number>, string> {
    if lines == [] then Ok([])
    else match NumbersOf(lines[..|lines| - 1])
      case Err(e) => Err(e)
      case Ok(numbers) => ReadLine(numbers, lines[|lines| - 1], |lines|)
  }

  /**
   * to_list: reads the lines in order, skipping blank ones; a line with more than one
   * value, or a value that is not a number, stops it with the line number in front of
   * the message.
   */
  method ToList(data: seq<string>) returns (r: Result<seq<Number>, string>)
    ensures r == NumbersOf(data)
  {
    var numbers := [];
    var n := 0;
    while n < |data|
      invariant 0 <= n <= |data|
      invariant NumbersOf(data[..n]) == Ok(numbers)
    {
      assert data[..n + 1][..n] == data[..n];
      var toks := Words(data[n]);
      if toks != [] {
        if |toks| != 1 {
          NumbersStop(data, n + 1);
          return Err(Usum.LineError(n + 1, TooMany));
        }
        var x := ToNum(toks[0]);
        if x.Err? {
          NumbersStop(data, n + 1);
          return Err(Usum.LineError(n + 1, x.error));
        }
        numbers := numbers + [x.value];
      }
      n := n + 1;
    }
    assert data[..n] == data;
    r := Ok(numbers);
  }

  /** An error in the first k lines is the error of all of them. */
  lemma NumbersStop(data: seq<string>, k: nat)
    requires k <= |data| && NumbersOf(data[..k]).Err?
    ensures NumbersOf(data) == NumbersOf(data[..k])
  {
    NumbersErrPersists(data[..k], data[k..]);
    assert data[..k] + data[k..] == data;
  }

  lemma {:induction false} NumbersErrPersists(lines: seq<string>, more: seq<string>)
    requires NumbersOf(lines).Err?
    ensures NumbersOf(lines + more) == NumbersOf(lines)
  {
    if more == [] {
      assert lines + more == lines;
    } else {
      var init := more[..|more| - 1];
      NumbersErrPersists(lines, init);
      assert (lines + more)[..|lines + more| - 1] == lines + init;
    }
  }

  /** The lines are read one after the other. */
  lemma NumbersSnoc(lines: seq<string>, line: string)
    ensures NumbersOf(lines + [line]) ==
      match NumbersOf(lines)
      case Err(e) => Err(e)
      case Ok(numbers) => ReadLine(numbers, line, |lines| + 1)
  {
    assert (lines + [line])[..|lines|] == lines;
  }

  /** Blank lines are skipped. */
  lemma NumbersBlank(lines: seq<string>, line: string)
    requires IsBlank(line)
    ensures NumbersOf(lines + [line]) == NumbersOf(lines)
  {
    NumbersSnoc(lines, line);
    WordsEmptyIffBlank(line);
  }

  /** A line with more than one value stops the reading. */
  lemma NumbersTooMany(lines: seq<string>, line: string)
    requires NumbersOf(lines).Ok? && |Words(line)| > 1
    ensures NumbersOf(lines + [line]) == Err(Usum.LineError(|lines| + 1, TooMany))
  {
    NumbersSnoc(lines, line);
  }

  /** A value that is not a number stops the reading with `float()`'s message behind the line number. */
  lemma NumbersNotNumber(lines: seq<string>, line: string)
    requires NumbersOf(lines).Ok? && |Words(line)| == 1 && ParseDecimal(Words(line)[0]).None?
    ensures NumbersOf(lines + [line]) == Err(Usum.LineError(|lines| + 1, FloatError(Words(line)[0])))
  {
    var t := Words(line)[0];
    assert ReadLine(NumbersOf(lines).value, line, |lines| + 1) == Err(Usum.LineError(|lines| + 1, FloatError(t))) by {
      assert ToNum(t) == Err(FloatError(t));
    }
    NumbersSnoc(lines, line);
  }

  /** A line is blank, or holds one value that is a number. */
  predicate ReadableLine(line: string) {
    Words(line) == [] || (|Words(line)| == 1 && ToNum(Words(line)[0]).Ok?)
  }

  /** The reading succeeds exactly when every line is blank or holds one number. */
  lemma {:induction false} NumbersReadable(lines: seq<string>)
    ensures NumbersOf(lines).Ok? <==> forall k :: 0 <= k < |lines| ==> ReadableLine(lines[k])
  {
    if lines != [] {
      var init := lines[..|lines| - 1];
      NumbersReadable(init);
      assert forall k :: 0 <= k < |init| ==> lines[k] == init[k];
    }
  }

  /** The numbers read are the values of the lines that are not blank, in order. */
  lemma {:induction false} NumbersValues(lines: seq<string>)
    requires NumbersOf(lines).Ok?
    ensures |NumbersOf(lines).value| == |LineWords(lines)|
    ensures forall j :: 0 <= j < |LineWords(lines)| ==> ToNum(LineWords(lines)[j]) == Ok(NumbersOf(lines).value[j])
  {
    if lines != [] {
      var init, line := lines[..|lines| - 1], lines[|lines| - 1];
      NumbersValues(init);
      var before := LineWords(init);
      assert LineWords(lines) == before + Words(line);
      assert forall j :: 0 <= j < |before| ==> LineWords(lines)[j] == before[j];
    }
  }
}
