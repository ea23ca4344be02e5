/**
 * Character classes and the Python string operations the four tools rely on:
 * `str.split(sep)`, `re.split` on one separator or on runs of it, `str.strip`,
 * `str.split()` on whitespace, `str.splitlines()` and `str(n)` for naturals.
 * Characters are restricted to the ASCII range of Python's character classes.
 */
module Text {

  /** An ASCII decimal digit: the part of Python's `\d` this model covers. */
  predicate IsDigit(c: char) {
    '0' <= c <= '9'
  }

  /** The ASCII characters for which Python's `str.isspace()` (and `\s`) hold. */
  predicate IsSpace(c: char) {
    c == ' ' || c == '\t' || c == '\n' || c == '\r' || c == '\U{000B}' || c == '\U{000C}'
    || ('\U{001C}' <= c <= '\U{001F}')
  }

  predicate AllDigits(s: string) {
    forall i :: 0 <= i < |s| ==> IsDigit(s[i])
  }

  function Pow10(n: nat): (r: nat)
    ensures r >= 1
  {
    if n == 0 then 1 else 10 * Pow10(n - 1)
  }

  lemma {:induction false} Pow10Add(a: nat, b: nat)
    ensures Pow10(a + b) == Pow10(a) * Pow10(b)
  {
    if b > 0 {
      Pow10Add(a, b - 1);
      assert Pow10(a + b) == 10 * Pow10(a + b - 1);
    }
  }

  lemma Pow10Split(lo: nat, hi: nat)
    requires lo <= hi
    ensures Pow10(hi) == Pow10(lo) * Pow10(hi - lo)
  {
    var b := hi - lo;
    Pow10Add(lo, b);
    assert lo + b == hi;
  }

  function DigitValue(c: char): nat
    requires IsDigit(c)
  {
    c as int - '0' as int
  }

  function DigitChar(d: nat): (c: char)
    requires d < 10
    ensures IsDigit(c) && DigitValue(c) == d
  {
    ('0' as int + d) as char
  }

  /** The number a string of decimal digits denotes (`int(s)` for such a string). */
  function DigitsValue(s: string): nat
    requires AllDigits(s)
  {
    if s == [] then 0 else DigitsValue(s[..|s| - 1]) * 10 + DigitValue(s[|s| - 1])
  }

  lemma {:induction false} DigitsValueBound(s: string)
    requires AllDigits(s)
    ensures DigitsValue(s) < Pow10(|s|)
  {
    if s != [] {
      DigitsValueBound(s[..|s| - 1]);
    }
  }

  /** Reading the digits of `a + b` shifts the value of `a` by the length of `b`. */
  lemma {:induction false} DigitsValueAppend(a: string, b: string)
    requires AllDigits(a) && AllDigits(b)
    ensures AllDigits(a + b)
    ensures DigitsValue(a + b) == DigitsValue(a) * Pow10(|b|) + DigitsValue(b)
  {
    var ab := a + b;
    if b == [] {
      assert ab == a;
    } else {
      var b', d := b[..|b| - 1], DigitValue(b[|b| - 1]);
      DigitsValueAppend(a, b');
      assert DigitsValue(ab) == DigitsValue(a + b') * 10 + d by {
        assert ab[..|ab| - 1] == a + b';
        assert ab[|ab| - 1] == b[|b| - 1];
      }
      ShiftDigit(DigitsValue(a), DigitsValue(b'), Pow10(|b'|), d);
    }
  }

  /** One more digit multiplies the shifted part by ten and adds the digit. */
  lemma ShiftDigit(x: int, y: int, p: int, d: int)
    ensures (x * p + y) * 10 + d == x * (10 * p) + (y * 10 + d)
  {
    assert (x * p) * 10 == x * (p * 10);
  }

  /** `str(n)`: the shortest decimal spelling of a natural number. */
  function ShowNat(n: nat): (s: string)
    ensures |s| > 0 && AllDigits(s)
    ensures DigitsValue(s) == n
    ensures |s| > 1 ==> s[0] != '0'
  {
    if n < 10 then [DigitChar(n)]
    else
      var s := ShowNat(n / 10) + [DigitChar(n % 10)];
      assert s[..|s| - 1] == ShowNat(n / 10);
      s
  }

  /** Exactly `width` digits spelling n with leading zeros, as in the fraction that `format(x, ".Nf")` prints. */
  function PadNat(n: nat, width: nat): (s: string)
    requires n < Pow10(width)
    ensures |s| == width && AllDigits(s)
    ensures DigitsValue(s) == n
  {
    if width == 0 then []
    else
      var s := PadNat(n / 10, width - 1) + [DigitChar(n % 10)];
      assert s[..|s| - 1] == PadNat(n / 10, width - 1);
      s
  }

  function Spaces(n: nat): (s: string)
    ensures |s| == n && forall i :: 0 <= i < n ==> s[i] == ' '
  {
    if n == 0 then "" else " " + Spaces(n - 1)
  }

  /** What splits a line into columns: whitespace (`delimiter=None`) or one character. */
  datatype Sep = Whitespace | Char(c: char)

  predicate IsSep(sep: Sep, c: char) {
    match sep
    case Whitespace => IsSpace(c)
    case Char(d) => c == d
  }

  predicate SepFree(s: string, sep: Sep) {
    forall i :: 0 <= i < |s| ==> !IsSep(sep, s[i])
  }

  predicate AllSeps(s: string, sep: Sep) {
    forall i :: 0 <= i < |s| ==> IsSep(sep, s[i])
  }

  /** A line that `line.strip()` reduces to the empty string. */
  predicate IsBlank(s: string) {
    AllSeps(s, Whitespace)
  }

  /** No separator at either end: what `str.strip` leaves. */
  predicate Stripped(s: string, sep: Sep) {
    s == [] || (!IsSep(sep, s[0]) && !IsSep(sep, s[|s| - 1]))
  }

  function CountSeps(s: string, sep: Sep): nat {
    if s == [] then 0 else (if IsSep(sep, s[0]) then 1 else 0) + CountSeps(s[1..], sep)
  }

  lemma {:induction false} CountSepsAppend(a: string, b: string, sep: Sep)
    ensures CountSeps(a + b, sep) == CountSeps(a, sep) + CountSeps(b, sep)
  {
    if a == [] {
      assert a + b == b;
    } else {
      assert (a + b)[1..] == a[1..] + b;
      CountSepsAppend(a[1..], b, sep);
    }
  }

  lemma {:induction false} CountSepsFree(s: string, sep: Sep)
    requires SepFree(s, sep)
    ensures CountSeps(s, sep) == 0
  {
    if s != [] {
      CountSepsFree(s[1..], sep);
    }
  }

  /** Index of the first separator in s, or |s| when there is none. */
  function FirstSep(s: string, sep: Sep): (i: nat)
    ensures i <= |s|
    ensures SepFree(s[..i], sep)
    ensures i < |s| ==> IsSep(sep, s[i])
  {
    if s == [] || IsSep(sep, s[0]) then 0
    else
      var i := 1 + FirstSep(s[1..], sep);
      assert s[..i] == [s[0]] + s[1..][..i - 1];
      i
  }

  /** The first separator of `a + [c] + b` is c when a holds none. */
  lemma FirstSepAfter(a: string, c: char, b: string, sep: Sep)
    requires SepFree(a, sep) && IsSep(sep, c)
    ensures FirstSep(a + [c] + b, sep) == |a|
  {
    var s := a + [c] + b;
    assert s[|a|] == c;
    assert forall j :: 0 <= j < |a| ==> s[j] == a[j];
  }

  lemma FirstSepFree(s: string, sep: Sep)
    requires SepFree(s, sep)
    ensures FirstSep(s, sep) == |s|
  {
  }

  /**
   * `re.split` on every single separator character: the fields between consecutive
   * separators, so that adjacent separators give an empty field.
   */
  function SplitEach(s: string, sep: Sep): (fields: seq<string>)
    ensures |fields| >= 1
    ensures forall k :: 0 <= k < |fields| ==> SepFree(fields[k], sep)
    decreases |s|
  {
    var i := FirstSep(s, sep);
    if i == |s| then [s] else [s[..i]] + SplitEach(s[i + 1..], sep)
  }

  /** Number of separators at the start of s. */
  function LeadingSeps(s: string, sep: Sep): (n: nat)
    ensures n <= |s|
    ensures AllSeps(s[..n], sep)
    ensures n < |s| ==> !IsSep(sep, s[n])
  {
    if s == [] || !IsSep(sep, s[0]) then 0
    else
      var n := 1 + LeadingSeps(s[1..], sep);
      assert s[..n] == [s[0]] + s[1..][..n - 1];
      n
  }

  /** Index at which the separators at the end of s begin. */
  function TrailingStart(s: string, sep: Sep): (n: nat)
    ensures n <= |s|
    ensures AllSeps(s[n..], sep)
    ensures n > 0 ==> !IsSep(sep, s[n - 1])
  {
    if s == [] || !IsSep(sep, s[|s| - 1]) then |s|
    else
      var n := TrailingStart(s[..|s| - 1], sep);
      assert s[n..] == s[..|s| - 1][n..] + [s[|s| - 1]];
      n
  }

  /** Leading separators removed. */
  function DropSeps(s: string, sep: Sep): (r: string)
    ensures |r| <= |s|
    ensures r != [] ==> !IsSep(sep, r[0])
  {
    s[LeadingSeps(s, sep)..]
  }

  /** `str.strip()` (whitespace) or `str.strip(delimiter)` (one character). */
  function Strip(s: string, sep: Sep): (r: string)
    ensures Stripped(r, sep)
    ensures r == [] <==> AllSeps(s, sep)
  {
    var a := LeadingSeps(s, sep);
    if a == |s| then
      assert s[..a] == s;
      ""
    else
      var b := TrailingStart(s, sep);
      assert a < b;
      s[a..b]
  }

  /**
   * `re.split` on runs of separators: a run of adjacent separators counts as one,
   * but a separator at either end still leaves an empty field there.
   */
  function SplitRuns(s: string, sep: Sep): (fields: seq<string>)
    ensures |fields| >= 1
    ensures forall k :: 0 <= k < |fields| ==> SepFree(fields[k], sep)
    decreases |s|
  {
    var i := FirstSep(s, sep);
    if i == |s| then [s] else [s[..i]] + SplitRuns(DropSeps(s[i..], sep), sep)
  }

  /** Python's `sep.join(parts)`. */
  function Join(parts: seq<string>, sep: string): string {
    if parts == [] then ""
    else if |parts| == 1 then parts[0]
    else parts[0] + sep + Join(parts[1..], sep)
  }

  /** A non-empty run of non-whitespace characters. */
  predicate IsWord(w: string) {
    |w| > 0 && SepFree(w, Whitespace)
  }

  /** Python's `s.split()`: the maximal runs of non-whitespace characters. */
  function Words(s: string): (ws: seq<string>)
    ensures forall k :: 0 <= k < |ws| ==> IsWord(ws[k])
    decreases |s|
  {
    var t := DropSeps(s, Whitespace);
    if t == [] then []
    else
      var i := FirstSep(t, Whitespace);
      [t[..i]] + Words(t[i..])
  }

  /** Length of the leading whitespace (`re.match(r"(\s*)", s)`). */
  function LeadingSpace(s: string): (n: nat)
    ensures n <= |s|
    ensures forall j :: 0 <= j < n ==> IsSpace(s[j])
    ensures n < |s| ==> !IsSpace(s[n])
  {
    LeadingSeps(s, Whitespace)
  }

  /** `str.splitlines()` for text whose only line boundary is `\n`. */
  function Lines(data: string): (lines: seq<string>)
    ensures forall k :: 0 <= k < |lines| ==> SepFree(lines[k], Char('\n'))
  {
    if data == [] then []
    else if data[|data| - 1] == '\n' then SplitEach(data[..|data| - 1], Char('\n'))
    else SplitEach(data, Char('\n'))
  }

  // ---------------------------------------------------------------------------
  // Properties of the splitters

  /** Splitting on every separator gives one field more than there are separators. */
  lemma {:induction false} SplitEachCount(s: string, sep: Sep)
    ensures |SplitEach(s, sep)| == CountSeps(s, sep) + 1
    decreases |s|
  {
    var i := FirstSep(s, sep);
    if i == |s| {
      assert s[..i] == s;
      CountSepsFree(s, sep);
    } else {
      SplitEachCount(s[i + 1..], sep);
      assert s == s[..i] + ([s[i]] + s[i + 1..]);
      CountSepsAppend(s[..i], [s[i]] + s[i + 1..], sep);
      CountSepsFree(s[..i], sep);
      assert ([s[i]] + s[i + 1..])[1..] == s[i + 1..];
    }
  }

  /** Joining the fields with the delimiter gives the line back. */
  lemma {:induction false} SplitEachJoin(s: string, d: char)
    ensures Join(SplitEach(s, Char(d)), [d]) == s
    decreases |s|
  {
    var i := FirstSep(s, Char(d));
    if i == |s| {
      assert s[..i] == s;
    } else {
      var rest := SplitEach(s[i + 1..], Char(d));
      SplitEachJoin(s[i + 1..], d);
      var fields := SplitEach(s, Char(d));
      assert fields == [s[..i]] + rest;
      assert fields[1..] == rest;
      assert s == s[..i] + [d] + s[i + 1..];
    }
  }

  /** Splitting a join of delimiter-free parts gives the parts back. */
  lemma {:induction false} JoinSplitEach(parts: seq<string>, d: char)
    requires |parts| >= 1
    requires forall k :: 0 <= k < |parts| ==> SepFree(parts[k], Char(d))
    ensures SplitEach(Join(parts, [d]), Char(d)) == parts
    decreases |parts|
  {
    if |parts| == 1 {
      FirstSepFree(parts[0], Char(d));
      assert parts[0][..|parts[0]|] == parts[0];
    } else {
      var rest := Join(parts[1..], [d]);
      var s := parts[0] + [d] + rest;
      assert Join(parts, [d]) == s;
      FirstSepAfter(parts[0], d, rest, Char(d));
      assert s[..|parts[0]|] == parts[0];
      assert s[|parts[0]| + 1..] == rest;
      JoinSplitEach(parts[1..], d);
      assert parts == [parts[0]] + parts[1..];
    }
  }

  /** Run-splitting a stripped line never yields an empty field, except `[""]` for "". */
  lemma {:induction false} SplitRunsStripped(s: string, sep: Sep)
    requires Stripped(s, sep)
    ensures s == [] ==> SplitRuns(s, sep) == [""]
    ensures s != [] ==> forall k :: 0 <= k < |SplitRuns(s, sep)| ==> |SplitRuns(s, sep)[k]| > 0
    decreases |s|
  {
    if s != [] && FirstSep(s, sep) < |s| {
      var r := SplitRunsRest(s, sep);
      SplitRunsStripped(r, sep);
      NonEmptyCons(s[..FirstSep(s, sep)], SplitRuns(r, sep));
    }
  }

  lemma NonEmptyCons(x: string, rest: seq<string>)
    requires |x| > 0 && forall k :: 0 <= k < |rest| ==> |rest[k]| > 0
    ensures forall k :: 0 <= k < |[x] + rest| ==> |([x] + rest)[k]| > 0
  {
  }

  /** A stripped line with a separator splits into a non-empty first field and a stripped rest. */
  lemma SplitRunsRest(s: string, sep: Sep) returns (r: string)
    requires Stripped(s, sep) && s != [] && FirstSep(s, sep) < |s|
    ensures r != [] && |r| < |s| && Stripped(r, sep)
    ensures FirstSep(s, sep) > 0 && SplitRuns(s, sep) == [s[..FirstSep(s, sep)]] + SplitRuns(r, sep)
    ensures r == DropSeps(s[FirstSep(s, sep)..], sep)
  {
    var i := FirstSep(s, sep);
    var t := s[i..];
    var n := LeadingSeps(t, sep);
    r := t[n..];
    assert r == DropSeps(t, sep);
    assert r[|r| - 1] == s[|s| - 1];
  }

  /** Run-splitting never yields an empty field between two others: only the first and last can be empty. */
  lemma {:induction false} SplitRunsInner(s: string, sep: Sep)
    ensures forall k :: 0 < k < |SplitRuns(s, sep)| - 1 ==> SplitRuns(s, sep)[k] != []
    decreases |s|
  {
    var i := FirstSep(s, sep);
    if i < |s| {
      var r := DropSeps(s[i..], sep);
      SplitRunsInner(r, sep);
      var fields, rest := SplitRuns(s, sep), SplitRuns(r, sep);
      assert fields == [s[..i]] + rest;
      if |rest| > 1 {
        assert rest[0] == r[..FirstSep(r, sep)];
      }
      forall k | 0 < k < |fields| - 1
        ensures fields[k] != []
      {
        assert fields[k] == rest[k - 1];
      }
    }
  }

  /** A join whose first part is not empty starts with that part's first character. */
  lemma JoinHead(parts: seq<string>, c: char)
    requires |parts| >= 1 && parts[0] != []
    ensures Join(parts, [c]) != [] && Join(parts, [c])[0] == parts[0][0]
  {
    if |parts| > 1 {
      assert Join(parts, [c]) == parts[0] + ([c] + Join(parts[1..], [c]));
    }
  }

  /**
   * Run-splitting a join with one separator character gives the parts back, when no
   * part holds a separator and no part between two others is empty.
   */
  lemma {:induction false} JoinSplitRuns(parts: seq<string>, c: char, sep: Sep)
    requires |parts| >= 1 && IsSep(sep, c)
    requires forall k :: 0 <= k < |parts| ==> SepFree(parts[k], sep)
    requires forall k :: 0 < k < |parts| - 1 ==> parts[k] != []
    ensures SplitRuns(Join(parts, [c]), sep) == parts
    decreases |parts|
  {
    if |parts| == 1 {
      FirstSepFree(parts[0], sep);
      assert parts[0][..|parts[0]|] == parts[0];
    } else {
      assert SplitRuns(Join(parts[1..], [c]), sep) == parts[1..] by {
        assert forall k :: 0 <= k < |parts| - 1 ==> parts[1..][k] == parts[k + 1];
        JoinSplitRuns(parts[1..], c, sep);
      }
      JoinSplitRunsCons(parts, c, sep);
    }
  }

  /** One step of JoinSplitRuns: the first part comes off at the first separator, and the rest is split as before. */
  lemma JoinSplitRunsCons(parts: seq<string>, c: char, sep: Sep)
    requires |parts| >= 2 && IsSep(sep, c)
    requires SepFree(parts[0], sep) && SepFree(parts[1], sep)
    requires |parts| > 2 ==> parts[1] != []
    requires SplitRuns(Join(parts[1..], [c]), sep) == parts[1..]
    ensures SplitRuns(Join(parts, [c]), sep) == parts
  {
    var head, tail := parts[0], parts[1..];
    var rest := Join(tail, [c]);
    assert Join(parts, [c]) == head + [c] + rest;
    assert rest == [] || !IsSep(sep, rest[0]) by {
      if tail[0] != [] {
        JoinHead(tail, c);
      } else {
        assert |tail| == 1;
      }
    }
    SplitRunsAfter(head, c, rest, sep);
    assert parts == [head] + tail;
  }

  /** A separator-free field, one separator and a rest that does not start with one. */
  lemma SplitRunsAfter(head: string, c: char, rest: string, sep: Sep)
    requires SepFree(head, sep) && IsSep(sep, c)
    requires rest == [] || !IsSep(sep, rest[0])
    ensures SplitRuns(head + [c] + rest, sep) == [head] + SplitRuns(rest, sep)
  {
    var s := head + [c] + rest;
    FirstSepAfter(head, c, rest, sep);
    assert s[..|head|] == head;
    var t := s[|head|..];
    assert t == [c] + rest && t[1..] == rest;
    assert LeadingSeps(t, sep) == 1 + LeadingSeps(rest, sep);
  }

  /** Leading whitespace adds no word. */
  lemma WordsDropSeps(s: string)
    ensures Words(DropSeps(s, Whitespace)) == Words(s)
  {
    var t := DropSeps(s, Whitespace);
    if t != [] {
      assert LeadingSeps(t, Whitespace) == 0;
    }
  }

  /** Whitespace after the text adds no word. */
  lemma {:induction false} WordsTrailing(x: string, y: string)
    requires AllSeps(y, Whitespace)
    ensures Words(x + y) == Words(x)
    decreases |x|, 1
  {
    var xy := x + y;
    var a := LeadingSeps(x, Whitespace);
    if a == |x| {
      assert AllSeps(xy, Whitespace);
      assert LeadingSeps(xy, Whitespace) == |xy|;
    } else {
      assert xy[..a] == x[..a] && xy[a] == x[a];
      assert LeadingSeps(xy, Whitespace) == a;
      var tx := DropSeps(x, Whitespace);
      assert DropSeps(xy, Whitespace) == tx + y;
      WordsDropSeps(xy);
      WordsDropSeps(x);
      WordTrailing(tx, y);
    }
  }

  /** The same, for text that starts with a word. */
  lemma {:induction false} WordTrailing(t: string, y: string)
    requires t != [] && !IsSpace(t[0]) && AllSeps(y, Whitespace)
    ensures Words(t + y) == Words(t)
    decreases |t|, 0
  {
    var j := FirstSep(t, Whitespace);
    if j == |t| {
      WordEnds(t, y);
    } else {
      WordGoesOn(t, j, y);
      WordsTrailing(t[j..], y);
    }
  }

  /** A word with only whitespace after it. */
  lemma WordEnds(t: string, y: string)
    requires t != [] && !IsSpace(t[0]) && SepFree(t, Whitespace) && AllSeps(y, Whitespace)
    ensures Words(t + y) == Words(t) == [t]
  {
    var ty := t + y;
    assert Words(t) == [t] by {
      assert LeadingSeps(t, Whitespace) == 0;
      FirstSepFree(t, Whitespace);
      assert t[..|t|] == t;
    }
    assert FirstSep(ty, Whitespace) == |t| by {
      if y != [] {
        assert ty == t + [y[0]] + y[1..];
        FirstSepAfter(t, y[0], y[1..], Whitespace);
      } else {
        assert ty == t;
        FirstSepFree(t, Whitespace);
      }
    }
    assert LeadingSeps(ty, Whitespace) == 0;
    assert ty[..|t|] == t && ty[|t|..] == y;
    WordsEmptyIffBlank(y);
    assert Words(ty) == [t] + Words(y);
  }

  /** A first word followed by more text: the words after it are read from the rest. */
  lemma WordGoesOn(t: string, j: nat, y: string)
    requires t != [] && !IsSpace(t[0]) && j == FirstSep(t, Whitespace) < |t|
    ensures Words(t + y) == [t[..j]] + Words(t[j..] + y)
    ensures Words(t) == [t[..j]] + Words(t[j..])
  {
    var ty := t + y;
    assert LeadingSeps(t, Whitespace) == 0 && LeadingSeps(ty, Whitespace) == 0;
    assert t == t[..j] + [t[j]] + t[j + 1..];
    assert ty == t[..j] + [t[j]] + (t[j + 1..] + y);
    FirstSepAfter(t[..j], t[j], t[j + 1..] + y, Whitespace);
    assert ty[..j] == t[..j];
    assert ty[j..] == t[j..] + y;
  }

  /** Stripping the whitespace around a line leaves its words as they are. */
  lemma WordsStrip(line: string)
    ensures Words(Strip(line, Whitespace)) == Words(line)
  {
    var a := LeadingSeps(line, Whitespace);
    if a < |line| {
      var b := TrailingStart(line, Whitespace);
      assert line[a..] == line[a..b] + line[b..];
      WordsTrailing(line[a..b], line[b..]);
      assert LeadingSeps(line[a..], Whitespace) == 0;
    }
  }

  /** On a stripped line, `re.split(r"\s+", line)` is `line.split()`. */
  lemma {:induction false} SplitRunsWords(s: string)
    requires Stripped(s, Whitespace) && s != []
    ensures SplitRuns(s, Whitespace) == Words(s)
    decreases |s|
  {
    var i := FirstSep(s, Whitespace);
    assert LeadingSeps(s, Whitespace) == 0;
    if i == |s| {
      assert s[..i] == s;
    } else {
      var r := SplitRunsRest(s, Whitespace);
      SplitRunsWords(r);
      assert LeadingSeps(r, Whitespace) == 0;
    }
  }

  lemma WordsLeadingSpace(x: string)
    ensures Words(" " + x) == Words(x)
  {
    var s := " " + x;
    assert s[1..] == x;
    assert LeadingSeps(s, Whitespace) == 1 + LeadingSeps(x, Whitespace);
    assert DropSeps(s, Whitespace) == DropSeps(x, Whitespace);
  }

  lemma {:induction false} WordsSpaces(n: nat, x: string)
    ensures Words(Spaces(n) + x) == Words(x)
  {
    if n == 0 {
      assert Spaces(n) + x == x;
    } else {
      var y := Spaces(n - 1) + x;
      assert Spaces(n) + x == " " + y;
      WordsLeadingSpace(y);
      WordsSpaces(n - 1, x);
    }
  }

  /** `" ".join(ws).split()` gives ws back when every word is non-empty and space-free. */
  lemma {:induction false} WordsOfJoin(ws: seq<string>)
    requires forall k :: 0 <= k < |ws| ==> IsWord(ws[k])
    ensures Words(Join(ws, " ")) == ws
    decreases |ws|
  {
    if |ws| == 1 {
      WordsOfWord(ws[0], "");
      assert ws[0] + "" == ws[0];
    } else if |ws| > 1 {
      var w, tail := ws[0], ws[1..];
      assert ws == [w] + tail;
      var rest := Join(tail, " ");
      var x := " " + rest;
      assert Join(ws, " ") == w + x;
      WordsOfWord(w, x);
      WordsLeadingSpace(rest);
      WordsOfJoin(tail);
      assert Words(Join(ws, " ")) == [w] + tail;
    }
  }

  /** A leading word followed by nothing or by whitespace is the first of the words. */
  lemma WordsOfWord(w: string, x: string)
    requires IsWord(w)
    requires x == [] || IsSpace(x[0])
    ensures Words(w + x) == [w] + Words(x)
  {
    var s := w + x;
    assert DropSeps(s, Whitespace) == s;
    assert FirstSep(s, Whitespace) == |w| by {
      if x == [] {
        assert s == w;
        FirstSepFree(w, Whitespace);
      } else {
        assert s == w + [x[0]] + x[1..];
        FirstSepAfter(w, x[0], x[1..], Whitespace);
      }
    }
    assert s[..|w|] == w;
    assert s[|w|..] == x;
    var t := DropSeps(s, Whitespace);
    assert t != [];
    var i := FirstSep(t, Whitespace);
    assert i == |w|;
    assert Words(s) == [t[..i]] + Words(t[i..]);
  }

  /** A line has no words exactly when it is blank. */
  lemma WordsEmptyIffBlank(s: string)
    ensures Words(s) == [] <==> IsBlank(s)
  {
    var n := LeadingSeps(s, Whitespace);
    if n == |s| {
      assert s[..n] == s;
    }
  }

  /** Every word of every line, in order: `line.split()` for each line. */
  function LineWords(lines: seq<string>): seq<string> {
    if lines == [] then [] else LineWords(lines[..|lines| - 1]) + Words(lines[|lines| - 1])
  }

  lemma LineWordsSnoc(lines: seq<string>, line: string)
    ensures LineWords(lines + [line]) == LineWords(lines) + Words(line)
  {
    assert (lines + [line])[..|lines|] == lines;
  }

  lemma {:induction false} LineWordsAppend(a: seq<string>, b: seq<string>)
    ensures LineWords(a + b) == LineWords(a) + LineWords(b)
  {
    if b == [] {
      assert a + b == a;
    } else {
      var init, x := b[..|b| - 1], b[|b| - 1];
      LineWordsAppend(a, init);
      LineWordsAppendStep(a, init, x);
      assert init + [x] == b;
    }
  }

  lemma LineWordsAppendStep(a: seq<string>, init: seq<string>, x: string)
    requires LineWords(a + init) == LineWords(a) + LineWords(init)
    ensures LineWords(a + (init + [x])) == LineWords(a) + LineWords(init + [x])
  {
    var u, v, w := LineWords(a), LineWords(init), Words(x);
    assert LineWords(a + (init + [x])) == LineWords(a + init) + w by {
      assert a + (init + [x]) == (a + init) + [x];
      LineWordsSnoc(a + init, x);
    }
    assert LineWords(init + [x]) == v + w by {
      LineWordsSnoc(init, x);
    }
    Associative(u, v, w);
  }

  /** A non-empty sequence is its front followed by its last element. */
  lemma InitLast<T>(s: seq<T>)
    requires s != []
    ensures s[..|s| - 1] + [s[|s| - 1]] == s
  {
  }

  lemma Associative<T>(p: seq<T>, q: seq<T>, r: seq<T>)
    ensures p + (q + r) == p + q + r
  {
  }
}
