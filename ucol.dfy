/**
 * ucol: select columns from lines of text. A line is split into columns by a
 * splitter, each column reference picks columns (or a substring of one) out of
 * them, and the picks of one line are concatenated into an output row.
 */
module Ucol {
  import opened Wrappers
  import opened Text
  import opened Currency

  // ---------------------------------------------------------------------------
  // remove_comma

  /** Strip `$` and `,` from a token shaped like money; leave anything else alone. */
  function RemoveComma(val: string): (r: string)
    ensures MoneyShaped(val, false) ==> forall k :: 0 <= k < |r| ==> !IsMark(r[k])
    ensures !MoneyShaped(val, false) ==> r == val
  {
    if MoneyShaped(val, false) then DropMarks(val) else val
  }

  /** Cleaning a token twice is cleaning it once: cleaned text holds no marks, so it never matches again. */
  lemma RemoveCommaIdempotent(val: string)
    ensures RemoveComma(RemoveComma(val)) == RemoveComma(val)
  {
    var r := RemoveComma(val);
    if MoneyShaped(val, false) && MoneyShaped(r, false) {
      MoneyShapedHasMark(r, false);
      assert false;
    }
  }

  /** Here a minus sign is only accepted right before the dollar sign, so `-1,234` keeps its comma. */
  lemma RemoveCommaMinusNeedsDollar(val: string)
    requires |val| >= 2 && val[0] == '-' && val[1] != '$'
    ensures RemoveComma(val) == val
  {
    var t := val[1..];
    var i := FirstSep(t, Char('.'));
    if i > 0 {
      assert t[..i][0] == val[1];
    }
  }

  /** Money loses exactly its marks; `-1,234` is not money here and stays as it is. */
  lemma RemoveCommaExamples()
    ensures RemoveComma("$1,234.56") == "1234.56"
    ensures RemoveComma("-1,234") == "-1,234"
  {
    RemoveCommaMinusNeedsDollar("-1,234");
    assert RemoveComma("$1,234.56") == "1234.56" by {
      MoneyExample();
      GroupedMoneyShaped("", "1", "234", "56");
      GroupedMoneyDropped("", "1", "234", "56");
    }
  }

  lemma MoneyExample()
    ensures GroupedMoney("", "1", "234", "56") == "$1,234.56"
    ensures GroupedParts("", "1", "234", "56")
    ensures "" + ("1" + ("234" + (['.'] + "56"))) == "1234.56"
  {
  }

  // ---------------------------------------------------------------------------
  // as_alpha

  /** `string.ascii_uppercase[i]` for 0 <= i < 26. */
  function Capital(i: int): (c: char)
    requires 0 <= i < 26
    ensures 'A' <= c <= 'Z'
  {
    ('A' as int + i) as char
  }

  /** `string.ascii_uppercase[k - 1]` for 0 <= k <= 26: the k-th letter, with 0 wrapping round to Z. */
  function Letter(k: int): (c: char)
    requires 0 <= k <= 26
    ensures 'A' <= c <= 'Z'
  {
    Capital(if k == 0 then 25 else k - 1)
  }

  /** The name as_alpha gives a number n >= 1: a leading letter for n // 26, then n % 26. */
  function Alpha(n: int): (s: string)
    requires n >= 1
    ensures |s| >= 1 && AllCapitals(s)
    decreases n
  {
    if n <= 26 then [Letter(n)] else Alpha(n / 26) + [Letter(n % 26)]
  }

  /** as_alpha: the loop peels one letter per step off the right, while the value exceeds 26. */
  method AsAlpha(value: int) returns (r: Option<string>)
    ensures value >= 1 ==> r == Some(Alpha(value))
    ensures -25 <= value <= 0 ==> r == Some([Capital(value + 25)])
    ensures value < -25 ==> r == None
  {
    var v := value;
    var parts: string := "";
    while 26 < v
      invariant value >= 1 ==> v >= 1 && Alpha(value) == Alpha(v) + parts
      invariant value < 1 ==> v == value && parts == ""
      decreases v
    {
      parts := [Letter(v % 26)] + parts;
      v := v / 26;
    }
    if v >= 1 {
      r := Some([Capital(v - 1)] + parts);
    } else if v - 1 >= -26 {
      assert [Capital(v - 1 + 26)] + parts == [Capital(value + 25)];
      r := Some([Capital(v - 1 + 26)] + parts);
    } else {
      r := None;
    }
  }

  /** The position of a capital letter in the alphabet, from 1 for A to 26 for Z. */
  function LetterPosition(c: char): int
    requires 'A' <= c <= 'Z'
  {
    c as int - 'A' as int + 1
  }

  predicate AllCapitals(s: string) {
    forall k :: 0 <= k < |s| ==> 'A' <= s[k] <= 'Z'
  }

  /** Reads an as_alpha name back: the first letter counts 1..26, each later one its position mod 26. */
  function AlphaValue(s: string): int
    requires |s| >= 1 && AllCapitals(s)
  {
    if |s| == 1 then LetterPosition(s[0])
    else AlphaValue(s[..|s| - 1]) * 26 + LetterPosition(s[|s| - 1]) % 26
  }

  /** Every number is recovered from its name, so distinct numbers get distinct names. */
  lemma {:induction false} AlphaRoundTrip(n: int)
    requires n >= 1
    ensures AlphaValue(Alpha(n)) == n
    decreases n
  {
    if n > 26 {
      var q, r := n / 26, n % 26;
      var init := Alpha(q);
      var s := init + [Letter(r)];
      assert s == Alpha(n);
      AlphaRoundTrip(q);
      assert s[..|s| - 1] == init;
      assert LetterPosition(Letter(r)) % 26 == r;
      assert AlphaValue(s) == q * 26 + r;
    }
  }

  lemma AlphaInjective(n: int, m: int)
    requires n >= 1 && m >= 1 && n != m
    ensures Alpha(n) != Alpha(m)
  {
    AlphaRoundTrip(n);
    AlphaRoundTrip(m);
  }

  /** 27 is AA, and a multiple of 26 ends in Z with the quotient in front: 52 is BZ. */
  lemma AlphaExamples()
    ensures Alpha(26) == "Z" && Alpha(27) == "AA" && Alpha(52) == "BZ"
  {
    assert Alpha(27) == Alpha(1) + [Letter(1)];
    assert Alpha(52) == Alpha(2) + [Letter(0)];
  }

  /** No number is named AZ: the value it reads as, 26, is named Z. */
  lemma AlphaSkipsAZ(n: int)
    requires n >= 1
    ensures Alpha(n) != "AZ"
  {
    AlphaRoundTrip(n);
    var s := "AZ";
    assert s[..1] == "A";
    assert AlphaValue(s) == 26;
    AlphaExamples();
  }

  /** Spreadsheet column names (bijective base 26): A..Z, AA..AZ, BA..., which sc cell names use. */
  function SheetColumn(n: int): (s: string)
    requires n >= 1
    ensures |s| >= 1 && AllCapitals(s)
    decreases n
  {
    if n <= 26 then [Capital(n - 1)] else SheetColumn((n - 1) / 26) + [Capital((n - 1) % 26)]
  }

  /** Reads a spreadsheet column name: every letter counts 1..26. */
  function SheetValue(s: string): int
    requires |s| >= 1 && AllCapitals(s)
  {
    if |s| == 1 then LetterPosition(s[0])
    else SheetValue(s[..|s| - 1]) * 26 + LetterPosition(s[|s| - 1])
  }

  lemma SheetValuePositive(s: string)
    requires |s| >= 1 && AllCapitals(s)
    ensures SheetValue(s) >= 1
  {
  }

  /** Column numbers and spreadsheet names are in one-to-one correspondence. */
  lemma {:induction false} SheetColumnRoundTrip(n: int)
    requires n >= 1
    ensures SheetValue(SheetColumn(n)) == n
    decreases n
  {
    if n > 26 {
      var s := SheetColumn(n);
      SheetColumnRoundTrip((n - 1) / 26);
      assert s[..|s| - 1] == SheetColumn((n - 1) / 26);
      assert LetterPosition(Capital((n - 1) % 26)) == (n - 1) % 26 + 1;
    }
  }

  lemma {:induction false} SheetColumnOnto(s: string)
    requires |s| >= 1 && AllCapitals(s)
    ensures SheetValue(s) >= 1 && SheetColumn(SheetValue(s)) == s
  {
    var c := s[|s| - 1];
    var p := LetterPosition(c);
    assert Capital(p - 1) == c;
    if |s| > 1 {
      var init := s[..|s| - 1];
      SheetColumnOnto(init);
      var v := SheetValue(init);
      assert SheetValue(s) == v * 26 + p;
      assert (v * 26 + p - 1) / 26 == v && (v * 26 + p - 1) % 26 == p - 1;
      assert s == init + [c];
    }
  }

  lemma SheetColumnExamples()
    ensures SheetColumn(27) == "AA" && SheetColumn(52) == "AZ" && SheetColumn(53) == "BA"
  {
    assert SheetColumn(27) == SheetColumn(1) + [Capital(0)];
    assert SheetColumn(52) == SheetColumn(1) + [Capital(25)];
    assert SheetColumn(53) == SheetColumn(2) + [Capital(0)];
  }

  // ---------------------------------------------------------------------------
  // linesplitter (the non-CSV modes)

  /**
   * How a line becomes columns: the delimiter (whitespace when none is given),
   * whether every delimiter separates (`nullable`) or runs of them do, and
   * whether delimiters at either end are stripped first.
   */
  datatype Splitter = Splitter(delimiter: Sep, nullable: bool, strip: bool)

  function Prepared(line: string, sp: Splitter): string {
    if sp.strip then Strip(line, sp.delimiter) else line
  }

  function Tokenise(line: string, sp: Splitter): (cols: seq<string>)
    ensures |cols| >= 1
    ensures forall k :: 0 <= k < |cols| ==> SepFree(cols[k], sp.delimiter)
  {
    var l := Prepared(line, sp);
    if sp.nullable then SplitEach(l, sp.delimiter) else SplitRuns(l, sp.delimiter)
  }

  /** Nullable splitting gives one column per delimiter plus one, so adjacent delimiters give empty columns. */
  lemma TokeniseNullableCount(line: string, sp: Splitter)
    requires sp.nullable
    ensures |Tokenise(line, sp)| == CountSeps(Prepared(line, sp), sp.delimiter) + 1
  {
    SplitEachCount(Prepared(line, sp), sp.delimiter);
  }

  /** Collapsing, stripped splitting never yields an empty column, except `[""]` for a line of delimiters only. */
  lemma TokeniseCollapsedStripped(line: string, sp: Splitter)
    requires !sp.nullable && sp.strip
    ensures AllSeps(line, sp.delimiter) ==> Tokenise(line, sp) == [""]
    ensures !AllSeps(line, sp.delimiter) ==> forall k :: 0 <= k < |Tokenise(line, sp)| ==> |Tokenise(line, sp)[k]| > 0
  {
    SplitRunsStripped(Strip(line, sp.delimiter), sp.delimiter);
  }

  /** Collapsing, stripped whitespace splitting (`re.split(r"\s+", line.strip())`) is `line.split()` on a line that is not blank. */
  lemma TokeniseWords(line: string)
    requires !IsBlank(line)
    ensures Tokenise(line, Splitter(Whitespace, false, true)) == Words(line)
  {
    WordsStrip(line);
    SplitRunsWords(Strip(line, Whitespace));
  }

  /**
   * With a one-character delimiter, collapsing splitting without strip undoes a join of
   * delimiter-free parts, one delimiter apart, with no empty part between two others.
   */
  lemma TokeniseRunsJoin(parts: seq<string>, d: char)
    requires |parts| >= 1
    requires forall k :: 0 <= k < |parts| ==> SepFree(parts[k], Char(d))
    requires forall k :: 0 < k < |parts| - 1 ==> parts[k] != []
    ensures Tokenise(Join(parts, [d]), Splitter(Char(d), false, false)) == parts
  {
    JoinSplitRuns(parts, d, Char(d));
  }

  /** Every collapsing split has that form, so its columns joined by one delimiter split back into them. */
  lemma TokeniseRunsRejoin(line: string, d: char)
    ensures var cols := Tokenise(line, Splitter(Char(d), false, false));
      (forall k :: 0 < k < |cols| - 1 ==> cols[k] != [])
      && Tokenise(Join(cols, [d]), Splitter(Char(d), false, false)) == cols
  {
    var cols := Tokenise(line, Splitter(Char(d), false, false));
    SplitRunsInner(line, Char(d));
    TokeniseRunsJoin(cols, d);
  }

  /** With a one-character delimiter, nullable splitting without strip is undone by joining with it. */
  lemma TokeniseJoin(line: string, d: char)
    ensures Join(Tokenise(line, Splitter(Char(d), true, false)), [d]) == line
  {
    SplitEachJoin(line, d);
  }

  // ---------------------------------------------------------------------------
  // Column selectors

  /**
   * A compiled column reference. Indexes are stored as the selector objects keep
   * them: a positive column number n as n - 1, zero and negative numbers as they are.
   * A slice keeps the substring bounds the same way: a positive start n as n - 1,
   * a negative end m as m + 1; a missing bound is None.
   */
  datatype Selector =
    | Single(index: int)
    | Range(index: int)
    | Slice(index: int, start: Option<int>, end: Option<int>)

  /** Python's `xs[i]`: negative indexes count from the right; None is an IndexError. */
  function PyIndex<T>(xs: seq<T>, i: int): (r: Option<T>)
    ensures r.Some? <==> -|xs| <= i < |xs|
    ensures r.Some? ==> r.value == xs[if i < 0 then i + |xs| else i]
  {
    if 0 <= i < |xs| then Some(xs[i])
    else if -|xs| <= i < 0 then Some(xs[i + |xs|])
    else None
  }

  /** Where a slice bound lands in a sequence of length n: negative counts from the end, then clamped. */
  function SliceBound(b: int, n: nat): (r: nat)
    ensures r <= n
    ensures 0 <= b <= n ==> r == b
    ensures -(n as int) <= b < 0 ==> r == b + n
  {
    if b < 0 then (if b + n < 0 then 0 else b + n) else (if b > n then n else b)
  }

  /** Python's `s[start:end]` with a step of one; it never fails. */
  function PySlice<T>(s: seq<T>, start: Option<int>, end: Option<int>): (r: seq<T>)
    ensures |r| <= |s|
    ensures start.None? && end.None? ==> r == s
    ensures start.Some? && end.Some? && 0 <= start.value <= end.value <= |s| ==> r == s[start.value..end.value]
    ensures start.Some? && end.Some? && -|s| <= start.value <= end.value < 0 ==>
      r == s[start.value + |s|..end.value + |s|]
    ensures start.Some? && end.Some? && SliceBound(end.value, |s|) <= SliceBound(start.value, |s|) ==> r == []
  {
    var lo := if start.None? then 0 else SliceBound(start.value, |s|);
    var hi := if end.None? then |s| else SliceBound(end.value, |s|);
    if lo < hi then s[lo..hi] else []
  }

  /** What a selector returns for the columns of a line; None is the IndexError the selector raises. */
  function Resolve(sel: Selector, cols: seq<string>): Option<seq<string>> {
    match sel
    case Single(i) => if PyIndex(cols, i).Some? then Some([PyIndex(cols, i).value]) else None
    case Range(i) => Some(PySlice(cols, Some(i), None))
    case Slice(i, start, end) =>
      if PyIndex(cols, i).Some? then Some([PySlice(PyIndex(cols, i).value, start, end)]) else None
  }

  /** The numbers the selector constructors accept: optional `sign`, then digits. */
  function SignedDigits(s: string, sign: char): Option<int> {
    if |s| > 0 && s[0] == sign then
      if |s| > 1 && AllDigits(s[1..]) then Some(-(DigitsValue(s[1..]) as int)) else None
    else if |s| > 0 && AllDigits(s) then Some(DigitsValue(s))
    else None
  }

  /** The constructors' shift: a positive column number n becomes the index n - 1. */
  function ColumnIndex(v: int): int {
    if v > 0 then v - 1 else v
  }

  /** The groups of `(_?\d+)\[(-?\d*)(?:,(-?\d+))?\]`: index, start and optional end text. */
  datatype SliceText = SliceText(index: string, start: string, end: Option<string>)

  /** The bound texts of a slice: up to the first comma, and what follows it, if there is one. */
  function SplitBounds(inner: string): (string, Option<string>) {
    var j := FirstSep(inner, Char(','));
    (inner[..j], if j == |inner| then None else Some(inner[j + 1..]))
  }

  /** `index[inner]`: the text before the first `[`, and the text between it and a closing `]` at the end. */
  function Bracketed(column: string): Option<(string, string)> {
    var i := FirstSep(column, Char('['));
    if i == |column| || column[|column| - 1] != ']' || i + 1 > |column| - 1 then None
    else Some((column[..i], column[i + 1..|column| - 1]))
  }

  /** The groups fit `_?\d+`, `-?\d*` and `-?\d+`. */
  predicate SliceTextOk(index: string, start: string, end: Option<string>) {
    SignedDigits(index, '_').Some?
    && (start == [] || start == "-" || SignedDigits(start, '-').Some?)
    && (end.Some? ==> SignedDigits(end.value, '-').Some?)
  }

  function MatchSlice(column: string): (r: Option<SliceText>)
    ensures r.Some? ==> SliceTextOk(r.value.index, r.value.start, r.value.end)
  {
    match Bracketed(column)
    case None => None
    case Some((index, inner)) =>
      var (start, end) := SplitBounds(inner);
      if SliceTextOk(index, start, end) then Some(SliceText(index, start, end)) else None
  }

  /** What `int("-")` raises for the start bound `-` that the slice pattern lets through. */
  const IntOfMinusError: string := "invalid literal for int() with base 10: '-'"

  function SpecificationError(column: string): string {
    "Invalid column specification: " + column
  }

  /**
   * column_specifier: a single column `[-_]?\d+`, else a range `\d+\+`, else a slice
   * `(_?\d+)\[(-?\d*)(?:,(-?\d+))?\]`, else an error naming the column.
   */
  function ParseSelector(column: string): (r: Result<Selector, string>)
    ensures r.Ok? && r.value.Range? ==> r.value.index >= 0
    ensures r.Err? ==> r.error == SpecificationError(column) || r.error == IntOfMinusError
  {
    var single := if |column| > 0 && column[0] == '_' then SignedDigits(column, '_') else SignedDigits(column, '-');
    if single.Some? then Ok(Single(ColumnIndex(single.value)))
    else if |column| >= 2 && column[|column| - 1] == '+' && AllDigits(column[..|column| - 1]) then
      Ok(Range(ColumnIndex(DigitsValue(column[..|column| - 1]))))
    else match MatchSlice(column)
      case None => Err(SpecificationError(column))
      case Some(SliceText(index, start, end)) =>
        if start == "-" then Err(IntOfMinusError)
        else
          var s := if start == [] then None else Some(ColumnIndex(SignedDigits(start, '-').value));
          var e := if end.None? then None else Some(EndBound(SignedDigits(end.value, '-').value));
          Ok(Slice(ColumnIndex(SignedDigits(index, '_').value), s, e))
  }

  /** The slice constructor's shift of the end bound: a negative m becomes m + 1. */
  function EndBound(m: int): int {
    if m < 0 then m + 1 else m
  }

  // ---------------------------------------------------------------------------
  // Properties of the selectors

  /** The selectors column_specifier can produce: a range never starts from the right. */
  predicate WellFormed(sel: Selector) {
    sel.Range? ==> sel.index >= 0
  }

  /** A number written with `sign` in front when negative. */
  function ShowSigned(v: int, sign: char): string {
    if v < 0 then [sign] + ShowNat(-v) else ShowNat(v)
  }

  /** The column number that the constructors turn into index i. */
  function ColumnNumber(i: int): int {
    if i >= 0 then i + 1 else i
  }

  /** The end bound that the slice constructor turns into e. */
  function EndNumber(e: int): int {
    if e < 0 then e - 1 else e
  }

  function ShowBound(b: Option<int>): string {
    if b.None? then "" else ShowSigned(ColumnNumber(b.value), '-')
  }

  function ShowEnd(e: Option<int>): string {
    if e.None? then "" else "," + ShowSigned(EndNumber(e.value), '-')
  }

  /** A column reference that compiles to sel. */
  function Show(sel: Selector): string
    requires WellFormed(sel)
  {
    match sel
    case Single(i) => ShowSigned(ColumnNumber(i), '-')
    case Range(i) => ShowNat(i + 1) + "+"
    case Slice(i, start, end) => ShowSigned(ColumnNumber(i), '_') + ['['] + (ShowBound(start) + ShowEnd(end) + "]")
  }

  lemma SignedDigitsShow(v: int, sign: char)
    requires !IsDigit(sign)
    ensures |ShowSigned(v, sign)| > 0
    ensures ShowSigned(v, sign)[0] == sign || IsDigit(ShowSigned(v, sign)[0])
    ensures forall k :: 1 <= k < |ShowSigned(v, sign)| ==> IsDigit(ShowSigned(v, sign)[k])
    ensures SignedDigits(ShowSigned(v, sign), sign) == Some(v)
  {
    var t := ShowSigned(v, sign);
    if v < 0 {
      assert t[1..] == ShowNat(-v);
    }
  }

  function EndText(end: Option<string>): string {
    if end.None? then "" else "," + end.value
  }

  /** The text `index[start]` or `index[start,end]`. */
  function SliceColumn(index: string, start: string, end: Option<string>): string {
    index + ['['] + (start + EndText(end) + "]")
  }

  lemma SplitBoundsParts(start: string, end: Option<string>)
    requires SepFree(start, Char(','))
    ensures SplitBounds(start + EndText(end)) == (start, end)
  {
    var inner := start + EndText(end);
    if end.None? {
      FirstSepFree(start, Char(','));
      assert inner[..|start|] == start;
    } else {
      assert inner == start + [','] + end.value;
      FirstSepAfter(start, ',', end.value, Char(','));
      assert inner[..|start|] == start;
      assert inner[|start| + 1..] == end.value;
    }
  }

  /** The characters a number accepted by SignedDigits can hold: its sign and digits. */
  lemma SignedDigitsFree(s: string, sign: char, c: char)
    requires SignedDigits(s, sign).Some? && c != sign && !IsDigit(c)
    ensures SepFree(s, Char(c))
  {
    if s[0] == sign {
      assert forall k :: 1 <= k < |s| ==> s[k] == s[1..][k - 1];
    }
  }

  /** `index[inner]` with no `[` in index: the first `[` closes the index. */
  lemma BracketSplit(index: string, inner: string)
    requires SepFree(index, Char('['))
    ensures Bracketed(index + ['['] + (inner + "]")) == Some((index, inner))
  {
    var column := index + ['['] + (inner + "]");
    assert column[..|index|] == index;
    assert column[|index| + 1..|column| - 1] == inner;
    FirstSepAfter(index, '[', inner + "]", Char('['));
  }

  /** The slice pattern splits `index[start,end]` back into its three parts. */
  lemma MatchSliceParts(index: string, start: string, end: Option<string>)
    requires SliceTextOk(index, start, end)
    ensures MatchSlice(SliceColumn(index, start, end)) == Some(SliceText(index, start, end))
  {
    SignedDigitsFree(index, '_', '[');
    BracketSplit(index, start + EndText(end));
    if start != [] && start != "-" {
      SignedDigitsFree(start, '-', ',');
    }
    SplitBoundsParts(start, end);
  }

  /** What column_specifier makes of a text the slice pattern matches, and no other pattern does. */
  lemma ParseSliceParts(index: string, start: string, end: Option<string>)
    requires SliceTextOk(index, start, end)
    ensures var column := SliceColumn(index, start, end);
      ParseSelector(column) ==
        if start == "-" then Err(IntOfMinusError)
        else Ok(Slice(ColumnIndex(SignedDigits(index, '_').value),
                      if start == [] then None else Some(ColumnIndex(SignedDigits(start, '-').value)),
                      if end.None? then None else Some(EndBound(SignedDigits(end.value, '-').value))))
  {
    var column := SliceColumn(index, start, end);
    MatchSliceParts(index, start, end);
    assert column[|index|] == '[';
    assert column[|column| - 1] == ']';
    assert !AllDigits(column[1..]) && !AllDigits(column) && !AllDigits(column[..|column| - 1]) by {
      assert column[1..][|index| - 1] == '[';
      assert column[..|column| - 1][|index|] == '[';
    }
  }

  /** Every selector column_specifier can produce is produced from the text Show gives it. */
  lemma ParseShow(sel: Selector)
    requires WellFormed(sel)
    ensures ParseSelector(Show(sel)) == Ok(sel)
  {
    match sel
    case Single(i) => SignedDigitsShow(ColumnNumber(i), '-');
    case Range(i) => ParseShowRange(i);
    case Slice(i, start, end) => ParseShowSlice(i, start, end);
  }

  lemma ParseShowRange(i: nat)
    ensures ParseSelector(ShowNat(i + 1) + "+") == Ok(Range(i))
  {
    var digits := ShowNat(i + 1);
    var t := digits + "+";
    assert t[..|t| - 1] == digits;
    assert t[|t| - 1] == '+';
    assert !AllDigits(t) && !AllDigits(t[1..]) by {
      assert t[1..][|t| - 2] == '+';
    }
  }

  lemma ParseShowSlice(i: int, start: Option<int>, end: Option<int>)
    ensures ParseSelector(Show(Slice(i, start, end))) == Ok(Slice(i, start, end))
  {
    var index := ShowSigned(ColumnNumber(i), '_');
    SignedDigitsShow(ColumnNumber(i), '_');
    var b := ShowBound(start);
    ShowBoundReads(start);
    var e := ShowEndReads(end);
    assert ParseSelector(SliceColumn(index, b, e)) == Ok(Slice(i, start, end)) by {
      ParseSliceParts(index, b, e);
    }
    assert Show(Slice(i, start, end)) == SliceColumn(index, b, e);
  }

  /** A printed start bound is empty, or reads back to its column number; it is never a lone `-`. */
  lemma ShowBoundReads(start: Option<int>)
    ensures start.None? ==> ShowBound(start) == []
    ensures start.Some? ==> SignedDigits(ShowBound(start), '-') == Some(ColumnNumber(start.value))
    ensures start.Some? ==> ColumnIndex(ColumnNumber(start.value)) == start.value
    ensures ShowBound(start) != "-"
  {
    if start.Some? {
      var b := ShowBound(start);
      SignedDigitsShow(ColumnNumber(start.value), '-');
      if |b| == 1 {
        assert IsDigit(b[0]);
      }
    }
  }

  /** A printed end bound is absent, or reads back to the bound the slice constructor turns into it. */
  lemma ShowEndReads(end: Option<int>) returns (e: Option<string>)
    ensures ShowEnd(end) == EndText(e) && (e.None? <==> end.None?)
    ensures end.Some? ==> SignedDigits(e.value, '-') == Some(EndNumber(end.value))
    ensures end.Some? ==> EndBound(EndNumber(end.value)) == end.value
  {
    if end.None? {
      e := None;
    } else {
      e := Some(ShowSigned(EndNumber(end.value), '-'));
      SignedDigitsShow(EndNumber(end.value), '-');
    }
  }

  /** `n` for n >= 1 selects the n-th column, counting from one, and fails exactly when there are fewer. */
  lemma SelectColumn(n: int, cols: seq<string>)
    requires n >= 1
    ensures ParseSelector(ShowNat(n)) == Ok(Single(n - 1))
    ensures Resolve(Single(n - 1), cols) == if n <= |cols| then Some([cols[n - 1]]) else None
  {
    ParseShow(Single(n - 1));
  }

  /** `0` selects the first column, as `1` does. */
  lemma SelectColumnZero()
    ensures ParseSelector("0") == ParseSelector("1") == Ok(Single(0))
  {
    ParseShow(Single(0));
    assert ShowNat(1) == "1";
    assert SignedDigits("0", '-') == Some(0);
  }

  /** `-n` and `_n` select the n-th column from the right, and fail exactly when there are fewer. */
  lemma SelectFromRight(n: int, cols: seq<string>)
    requires n >= 1
    ensures ParseSelector("-" + ShowNat(n)) == Ok(Single(-n))
    ensures ParseSelector("_" + ShowNat(n)) == Ok(Single(-n))
    ensures Resolve(Single(-n), cols) == if n <= |cols| then Some([cols[|cols| - n]]) else None
  {
    ParseShow(Single(-n));
    SignedDigitsShow(-n, '_');
  }

  /** `n+` selects the columns from the n-th on; it never fails, and is empty past the last column. */
  lemma SelectRange(n: int, cols: seq<string>)
    requires n >= 1
    ensures ParseSelector(ShowNat(n) + "+") == Ok(Range(n - 1))
    ensures Resolve(Range(n - 1), cols) == Some(if n <= |cols| then cols[n - 1..] else [])
  {
    ParseShowRange(n - 1);
    RangeSuffix(n - 1, cols);
  }

  lemma RangeSuffix(i: nat, cols: seq<string>)
    ensures Resolve(Range(i), cols) == Some(if i < |cols| then cols[i..] else [])
  {
    if i < |cols| {
      assert cols[i..|cols|] == cols[i..];
    }
  }

  /** A slice fails only when its column does not exist: the substring bounds are clamped. */
  lemma SliceFailsOnlyOnColumn(i: int, start: Option<int>, end: Option<int>, cols: seq<string>)
    ensures Resolve(Slice(i, start, end), cols).None? <==> !(-|cols| <= i < |cols|)
  {
  }

  /** `index[start,-1]`: the end bound -1 is shifted to 0, so the substring is always empty. */
  lemma SliceEndMinusOne(index: string, start: string, cols: seq<string>)
    requires SignedDigits(index, '_').Some?
    requires start == [] || SignedDigits(start, '-').Some?
    ensures var r := ParseSelector(SliceColumn(index, start, Some("-1")));
      r.Ok? && r.value.end == Some(0)
      && (Resolve(r.value, cols).Some? ==> Resolve(r.value, cols).value == [""])
  {
    assert SignedDigits("-1", '-') == Some(-1) by {
      var m := "-1";
      assert m[1..] == "1";
    }
    ParseSliceParts(index, start, Some("-1"));
  }

  /** `n[a,b]` for 1 <= a <= b selects characters a to b of the n-th column, counting from one, both included. */
  lemma SelectSlice(n: int, a: int, b: int, cols: seq<string>)
    requires 1 <= n <= |cols| && 1 <= a <= b <= |cols[n - 1]|
    ensures ParseSelector(ShowNat(n) + "[" + ShowNat(a) + "," + ShowNat(b) + "]") == Ok(Slice(n - 1, Some(a - 1), Some(b)))
    ensures Resolve(Slice(n - 1, Some(a - 1), Some(b)), cols) == Some([cols[n - 1][a - 1..b]])
  {
    ParseShowSlice(n - 1, Some(a - 1), Some(b));
    ShownSlice(n, a, b);
  }

  /** The text Show prints for a slice, piece by piece. */
  lemma ShowSliceParts(i: int, start: Option<int>, end: Option<int>)
    ensures Show(Slice(i, start, end)) == ShowSigned(ColumnNumber(i), '_') + ['['] + (ShowBound(start) + ShowEnd(end) + "]")
  {
  }

  /** The text Show prints for a slice with a positive start and end. */
  lemma ShownSlice(n: int, a: int, b: int)
    requires 1 <= n && 1 <= a <= b
    ensures Show(Slice(n - 1, Some(a - 1), Some(b))) == ShowNat(n) + "[" + ShowNat(a) + "," + ShowNat(b) + "]"
  {
    var x, y, z := ShowNat(n), ShowNat(a), ShowNat(b);
    assert Show(Slice(n - 1, Some(a - 1), Some(b))) == x + ['['] + (y + ("," + z) + "]") by {
      assert ShowSigned(ColumnNumber(n - 1), '_') == x;
      assert ShowBound(Some(a - 1)) == y;
      assert ShowEnd(Some(b)) == "," + z;
      ShowSliceParts(n - 1, Some(a - 1), Some(b));
    }
    ConcatSlice(x, y, z);
  }

  lemma ConcatSlice(x: string, y: string, z: string)
    ensures x + ['['] + (y + ("," + z) + "]") == x + "[" + y + "," + z + "]"
  {
  }

  /** The text Show prints for a slice with a negative start and end. */
  lemma ShownSliceFromRight(n: int, a: int, b: int)
    requires 1 <= n && 2 <= b <= a
    ensures Show(Slice(n - 1, Some(-a), Some(1 - b))) == ShowNat(n) + "[-" + ShowNat(a) + ",-" + ShowNat(b) + "]"
  {
    var x, y, z := ShowNat(n), ShowNat(a), ShowNat(b);
    assert Show(Slice(n - 1, Some(-a), Some(1 - b))) == x + ['['] + (("-" + y) + (",-" + z) + "]") by {
      assert ShowSigned(ColumnNumber(n - 1), '_') == x;
      ShowBoundFromRight(a);
      ShowEndFromRight(b);
      ShowSliceParts(n - 1, Some(-a), Some(1 - b));
    }
    ConcatSliceFromRight(x, y, z);
  }

  lemma ConcatSliceFromRight(x: string, y: string, z: string)
    ensures x + ['['] + (("-" + y) + (",-" + z) + "]") == x + "[-" + y + ",-" + z + "]"
  {
  }

  /**
   * `n[-a,-b]` for 2 <= b <= a selects the a-th to the b-th character from the right of the
   * n-th column, both included; b = 1 is SliceEndMinusOne.
   */
  lemma SelectSliceFromRight(n: int, a: int, b: int, cols: seq<string>)
    requires 1 <= n <= |cols| && 2 <= b <= a <= |cols[n - 1]|
    ensures ParseSelector(ShowNat(n) + "[-" + ShowNat(a) + ",-" + ShowNat(b) + "]") == Ok(Slice(n - 1, Some(-a), Some(1 - b)))
    ensures var col := cols[n - 1];
      Resolve(Slice(n - 1, Some(-a), Some(1 - b)), cols) == Some([col[|col| - a..|col| - b + 1]])
  {
    ParseShowSlice(n - 1, Some(-a), Some(1 - b));
    ShownSliceFromRight(n, a, b);
    ResolveFromRight(n, a, b, cols);
  }

  lemma ResolveFromRight(n: int, a: int, b: int, cols: seq<string>)
    requires 1 <= n <= |cols| && 2 <= b <= a <= |cols[n - 1]|
    ensures var col := cols[n - 1];
      Resolve(Slice(n - 1, Some(-a), Some(1 - b)), cols) == Some([col[|col| - a..|col| - b + 1]])
  {
    var col := cols[n - 1];
    assert Resolve(Slice(n - 1, Some(-a), Some(1 - b)), cols) == Some([PySlice(col, Some(-a), Some(1 - b))]);
    SliceFromRight(col, a, b);
  }

  /** A start of `-a` is printed back as `-a`. */
  lemma ShowBoundFromRight(a: int)
    requires a >= 1
    ensures ShowBound(Some(-a)) == "-" + ShowNat(a)
  {
    var t := ShowNat(a);
    assert ShowSigned(-a, '-') == ['-'] + t;
  }

  /** An end of `-b` is printed back as `,-b`. */
  lemma ShowEndFromRight(b: int)
    requires b >= 2
    ensures ShowEnd(Some(1 - b)) == ",-" + ShowNat(b)
  {
    var t := ShowNat(b);
    assert ShowSigned(EndNumber(1 - b), '-') == ['-'] + t;
    assert "," + (['-'] + t) == ",-" + t;
  }

  /** Slicing from the a-th character from the right to just before the (b-1)-th. */
  lemma SliceFromRight(col: string, a: int, b: int)
    requires 2 <= b <= a <= |col|
    ensures PySlice(col, Some(-a), Some(1 - b)) == col[|col| - a..|col| - b + 1]
  {
  }

  /** The end bound as the slice syntax describes it: -1 is the last character, so it leaves the end open. */
  function IntendedEnd(m: int): (e: Option<int>)
    ensures m != -1 ==> e == Some(EndBound(m))
    ensures m == -1 ==> e.None?
  {
    if m == -1 then None else Some(EndBound(m))
  }

  /** With the intended end, `[-a,-b]` selects the a-th to the b-th character from the right for every b >= 1. */
  lemma IntendedSliceFromRight(col: string, a: int, b: int)
    requires 1 <= b <= a <= |col|
    ensures PySlice(col, Some(-a), IntendedEnd(-b)) == col[|col| - a..|col| - b + 1]
    ensures b == 1 ==> PySlice(col, Some(-a), IntendedEnd(-b)) == col[|col| - a..]
  {
    if b == 1 {
      assert col[|col| - a..|col|] == col[|col| - a..];
    }
  }

  /** `1[-]` matches the slice pattern, but converting its start `-` to a number fails. */
  lemma SliceStartMinusFails()
    ensures ParseSelector("1[-]") == Err(IntOfMinusError)
  {
    assert SignedDigits("1", '_') == Some(1);
    ParseSliceParts("1", "-", None);
    assert SliceColumn("1", "-", None) == "1[-]";
  }

  /** A slice cannot take `-` for a column from the right: `-1[2]` matches no pattern. */
  lemma RejectsMinusSlice()
    ensures ParseSelector("-1[2]") == Err(SpecificationError("-1[2]"))
  {
    var a := "-1[2]";
    assert a[1..][1] == '[' && a[|a| - 1] == ']';
    assert a == "-1" + ['['] + ("2" + "]");
    BracketSplit("-1", "2");
    assert a[..2] == "-1";
  }

  /** A range cannot take `_`: `_1+` matches no pattern. */
  lemma RejectsUnderscoreRange()
    ensures ParseSelector("_1+") == Err(SpecificationError("_1+"))
  {
    var b := "_1+";
    assert b[1..][1] == '+' && b[..|b| - 1][0] == '_';
    FirstSepFree(b, Char('['));
  }

  // ---------------------------------------------------------------------------
  // split

  /** A line's output row: the selectors' picks concatenated in order, None when one raises IndexError. */
  function Project(cols: seq<string>, sels: seq<Selector>): Option<seq<string>> {
    if sels == [] then Some([])
    else
      match Project(cols, sels[..|sels| - 1])
      case None => None
      case Some(init) =>
        match Resolve(sels[|sels| - 1], cols)
        case None => None
        case Some(part) => Some(init + part)
  }

  /** The rows split yields, and the exception that ended it early, if any. */
  datatype Outcome = Outcome(rows: seq<seq<string>>, error: Option<string>)

  function ShortRowError(lineno: nat, line: string): string {
    "line=" + ShowNat(lineno) + ":'" + line + "' does not have enough columns"
  }

  /**
   * split from line number `lineno` on: a line whose projection fails is skipped,
   * or in strict mode ends the output with an error; an empty projection yields nothing.
   */
  function RowsFrom(lines: seq<string>, sels: seq<Selector>, sp: Splitter, strict: bool, lineno: nat): Outcome
    decreases |lines|
  {
    if lines == [] then Outcome([], None)
    else Step(Project(Tokenise(lines[0], sp), sels), strict, lineno, lines[0],
              RowsFrom(lines[1..], sels, sp, strict, lineno + 1))
  }

  /** One line's contribution given its projection, in front of the rest of the output. */
  function Step(picked: Option<seq<string>>, strict: bool, lineno: nat, line: string, rest: Outcome): Outcome {
    match picked
    case None => if strict then Outcome([], Some(ShortRowError(lineno, line))) else rest
    case Some(row) => if row == [] then rest else Outcome([row] + rest.rows, rest.error)
  }

  lemma RowsFromCons(lines: seq<string>, sels: seq<Selector>, sp: Splitter, strict: bool, lineno: nat)
    requires lines != []
    ensures RowsFrom(lines, sels, sp, strict, lineno)
      == Step(Project(Tokenise(lines[0], sp), sels), strict, lineno, lines[0], RowsFrom(lines[1..], sels, sp, strict, lineno + 1))
  {
  }

  /** The rows of `out` after `rows` already yielded. */
  function After(rows: seq<seq<string>>, out: Outcome): Outcome {
    Outcome(rows + out.rows, out.error)
  }

  /** split: every line of the data, numbered from 1, through the selectors in order. */
  method Split(data: string, sels: seq<Selector>, sp: Splitter, strict: bool) returns (out: Outcome)
    ensures out == RowsFrom(Lines(data), sels, sp, strict, 1)
  {
    var lines := Lines(data);
    var rows: seq<seq<string>> := [];
    var rest := lines;
    var lineno := 1;
    while rest != []
      invariant RowsFrom(lines, sels, sp, strict, 1) == After(rows, RowsFrom(rest, sels, sp, strict, lineno))
      decreases |rest|
    {
      var line := rest[0];
      var result := ProjectRow(Tokenise(line, sp), sels);
      if result.None? && strict {
        SplitStops(rest, lineno, sels, sp, strict, rows);
        return Outcome(rows, Some(ShortRowError(lineno, line)));
      }
      SplitGoesOn(rest, lineno, sels, sp, strict, rows);
      if result.Some? && result.value != [] {
        rows := rows + [result.value];
      }
      rest := rest[1..];
      lineno := lineno + 1;
    }
    assert rows + [] == rows;
    out := Outcome(rows, None);
  }

  /** A line too short for the selectors ends split in strict mode, after the rows output before it. */
  lemma SplitStops(rest: seq<string>, lineno: nat, sels: seq<Selector>, sp: Splitter, strict: bool, rows: seq<seq<string>>)
    requires rest != [] && strict && Project(Tokenise(rest[0], sp), sels).None?
    ensures After(rows, RowsFrom(rest, sels, sp, strict, lineno)) == Outcome(rows, Some(ShortRowError(lineno, rest[0])))
  {
    RowsFromCons(rest, sels, sp, strict, lineno);
    assert rows + [] == rows;
  }

  /** Otherwise the line adds its projection to the rows when it is not empty, and split goes on with the next. */
  lemma SplitGoesOn(rest: seq<string>, lineno: nat, sels: seq<Selector>, sp: Splitter, strict: bool, rows: seq<seq<string>>)
    requires rest != [] && !(strict && Project(Tokenise(rest[0], sp), sels).None?)
    ensures var picked := Project(Tokenise(rest[0], sp), sels);
      var later := RowsFrom(rest[1..], sels, sp, strict, lineno + 1);
      After(rows, RowsFrom(rest, sels, sp, strict, lineno)) ==
        if picked.Some? && picked.value != [] then After(rows + [picked.value], later) else After(rows, later)
  {
    var picked := Project(Tokenise(rest[0], sp), sels);
    RowsFromCons(rest, sels, sp, strict, lineno);
    if picked.Some? && picked.value != [] {
      AfterRow(rows, picked.value, RowsFrom(rest[1..], sels, sp, strict, lineno + 1));
    }
  }

  lemma AfterRow(rows: seq<seq<string>>, row: seq<string>, out: Outcome)
    ensures After(rows, Outcome([row] + out.rows, out.error)) == After(rows + [row], out)
  {
    assert rows + ([row] + out.rows) == rows + [row] + out.rows;
  }

  /** The inner loop of split: extend the row selector by selector, stopping at the first IndexError. */
  method ProjectRow(cols: seq<string>, sels: seq<Selector>) returns (r: Option<seq<string>>)
    ensures r == Project(cols, sels)
  {
    var result: seq<string> := [];
    var j := 0;
    while j < |sels|
      invariant 0 <= j <= |sels|
      invariant Project(cols, sels[..j]) == Some(result)
    {
      assert sels[..j + 1][..j] == sels[..j];
      var picked := Resolve(sels[j], cols);
      if picked.None? {
        ProjectFailsFrom(cols, sels, j + 1);
        return None;
      }
      result := result + picked.value;
      j := j + 1;
    }
    assert sels[..j] == sels;
    r := Some(result);
  }

  /** Once a prefix of the selectors fails, the whole projection fails. */
  lemma {:induction false} ProjectFailsFrom(cols: seq<string>, sels: seq<Selector>, j: nat)
    requires j <= |sels| && Project(cols, sels[..j]).None?
    ensures Project(cols, sels).None?
    decreases |sels| - j
  {
    if j < |sels| {
      assert sels[..j + 1][..j] == sels[..j];
      ProjectFailsFrom(cols, sels, j + 1);
    } else {
      assert sels[..j] == sels;
    }
  }

  /** Every row split yields is non-empty: an empty projection is dropped, while a row `[""]` is kept. */
  lemma {:induction false} RowsNonEmpty(lines: seq<string>, sels: seq<Selector>, sp: Splitter, strict: bool, lineno: nat)
    ensures forall k :: 0 <= k < |RowsFrom(lines, sels, sp, strict, lineno).rows| ==> RowsFrom(lines, sels, sp, strict, lineno).rows[k] != []
    decreases |lines|
  {
    if lines != [] {
      RowsNonEmpty(lines[1..], sels, sp, strict, lineno + 1);
    }
  }

  /** The selectors' picks are concatenated in the order given, so reordering and repeats are kept. */
  lemma {:induction false} ProjectConcat(cols: seq<string>, a: seq<Selector>, b: seq<Selector>)
    ensures Project(cols, a + b) ==
      if Project(cols, a).Some? && Project(cols, b).Some? then Some(Project(cols, a).value + Project(cols, b).value) else None
    decreases |b|
  {
    if b == [] {
      assert a + b == a;
      if Project(cols, a).Some? {
        assert Project(cols, a).value + [] == Project(cols, a).value;
      }
    } else {
      var b', s := b[..|b| - 1], b[|b| - 1];
      ProjectConcat(cols, a, b');
      assert a + b == (a + b') + [s] && b == b' + [s];
      ProjectSnoc(cols, a + b', s);
      ProjectSnoc(cols, b', s);
      if Project(cols, a).Some? && Project(cols, b').Some? && Resolve(s, cols).Some? {
        Associative(Project(cols, a).value, Project(cols, b').value, Resolve(s, cols).value);
      }
    }
  }

  /** One selector more extends the row by what it picks, or fails. */
  lemma ProjectSnoc(cols: seq<string>, sels: seq<Selector>, s: Selector)
    ensures Project(cols, sels + [s]) ==
      if Project(cols, sels).Some? && Resolve(s, cols).Some? then Some(Project(cols, sels).value + Resolve(s, cols).value) else None
  {
    assert (sels + [s])[..|sels|] == sels;
  }

  /** A row fails exactly when one of its selectors raises IndexError. */
  lemma {:induction false} ProjectFailsIff(cols: seq<string>, sels: seq<Selector>)
    ensures Project(cols, sels).None? <==> exists j :: 0 <= j < |sels| && Resolve(sels[j], cols).None?
    decreases |sels|
  {
    if sels != [] {
      var init := sels[..|sels| - 1];
      ProjectFailsIff(cols, init);
      if Project(cols, init).None? {
        var j :| 0 <= j < |init| && Resolve(init[j], cols).None?;
        assert sels[j] == init[j];
      } else if Resolve(sels[|sels| - 1], cols).Some? {
        forall j | 0 <= j < |sels|
          ensures Resolve(sels[j], cols).Some?
        {
          if j < |init| {
            assert sels[j] == init[j];
          }
        }
      }
    }
  }

  /** Without strict mode a short line is skipped, so split never stops with an error. */
  lemma {:induction false} LenientNeverFails(lines: seq<string>, sels: seq<Selector>, sp: Splitter, lineno: nat)
    ensures RowsFrom(lines, sels, sp, false, lineno).error == None
    decreases |lines|
  {
    if lines != [] {
      LenientNeverFails(lines[1..], sels, sp, lineno + 1);
    }
  }

  /** The row a line contributes when nothing stops split: its projection, unless that failed or is empty. */
  function Kept(picked: Option<seq<string>>): seq<seq<string>> {
    if picked.Some? && picked.value != [] then [picked.value] else []
  }

  /** A line that does not stop split adds its kept row in front of the rest. */
  lemma StepKept(picked: Option<seq<string>>, strict: bool, lineno: nat, line: string, rest: Outcome)
    requires picked.Some? || !strict
    ensures Step(picked, strict, lineno, line, rest) == Outcome(Kept(picked) + rest.rows, rest.error)
  {
    if !(picked.Some? && picked.value != []) {
      assert [] + rest.rows == rest.rows;
    }
  }

  /** Lenient rows come out in line order: the rows of a concatenation are the rows of its parts, in order. */
  lemma {:induction false} LenientAppend(a: seq<string>, b: seq<string>, sels: seq<Selector>, sp: Splitter, lineno: nat)
    ensures RowsFrom(a + b, sels, sp, false, lineno).rows
      == RowsFrom(a, sels, sp, false, lineno).rows + RowsFrom(b, sels, sp, false, lineno + |a|).rows
    decreases |a|
  {
    if a == [] {
      assert a + b == b;
    } else {
      assert (a + b)[0] == a[0];
      assert (a + b)[1..] == a[1..] + b;
      LenientAppend(a[1..], b, sels, sp, lineno + 1);
      var picked := Project(Tokenise(a[0], sp), sels);
      var x := RowsFrom(a[1..], sels, sp, false, lineno + 1);
      var xy := RowsFrom(a[1..] + b, sels, sp, false, lineno + 1);
      var y := RowsFrom(b, sels, sp, false, lineno + |a|).rows;
      StepKept(picked, false, lineno, a[0], x);
      StepKept(picked, false, lineno, a[0], xy);
      RowsFromCons(a + b, sels, sp, false, lineno);
      RowsFromCons(a, sels, sp, false, lineno);
      Associative(Kept(picked), x.rows, y);
    }
  }

  /** Strict mode yields every row of the lines before the first short one, then stops with that line's error. */
  lemma {:induction false} StrictStopsAt(lines: seq<string>, sels: seq<Selector>, sp: Splitter, lineno: nat, k: nat)
    requires k < |lines| && Project(Tokenise(lines[k], sp), sels).None?
    requires forall j :: 0 <= j < k ==> Project(Tokenise(lines[j], sp), sels).Some?
    ensures RowsFrom(lines, sels, sp, true, lineno)
      == Outcome(RowsFrom(lines[..k], sels, sp, false, lineno).rows, Some(ShortRowError(lineno + k, lines[k])))
    decreases k
  {
    if k > 0 {
      forall j | 0 <= j < k - 1
        ensures Project(Tokenise(lines[1..][j], sp), sels).Some?
      {
        assert lines[1..][j] == lines[j + 1];
      }
      StrictStopsAt(lines[1..], sels, sp, lineno + 1, k - 1);
      StrictKeepsFirst(lines, sels, sp, lineno, k, ShortRowError(lineno + 1 + (k - 1), lines[1..][k - 1]));
      assert lines[1..][k - 1] == lines[k] && lineno + 1 + (k - 1) == lineno + k;
    } else {
      assert RowsFrom(lines[..k], sels, sp, false, lineno) == Outcome([], None);
    }
  }

  /** A first line with enough columns is yielded in strict mode as in lenient mode, in front of what follows. */
  lemma StrictKeepsFirst(lines: seq<string>, sels: seq<Selector>, sp: Splitter, lineno: nat, k: nat, err: string)
    requires 0 < k < |lines| && Project(Tokenise(lines[0], sp), sels).Some?
    requires RowsFrom(lines[1..], sels, sp, true, lineno + 1)
      == Outcome(RowsFrom(lines[1..][..k - 1], sels, sp, false, lineno + 1).rows, Some(err))
    ensures RowsFrom(lines, sels, sp, true, lineno) == Outcome(RowsFrom(lines[..k], sels, sp, false, lineno).rows, Some(err))
  {
    var picked := Project(Tokenise(lines[0], sp), sels);
    var rest := RowsFrom(lines[1..], sels, sp, true, lineno + 1);
    var kept := RowsFrom(lines[1..][..k - 1], sels, sp, false, lineno + 1);
    assert RowsFrom(lines, sels, sp, true, lineno) == Outcome(Kept(picked) + rest.rows, rest.error) by {
      RowsFromCons(lines, sels, sp, true, lineno);
      StepKept(picked, true, lineno, lines[0], rest);
    }
    assert RowsFrom(lines[..k], sels, sp, false, lineno) == Outcome(Kept(picked) + kept.rows, kept.error) by {
      assert lines[..k][0] == lines[0] && lines[..k][1..] == lines[1..][..k - 1];
      RowsFromCons(lines[..k], sels, sp, false, lineno);
      StepKept(picked, false, lineno, lines[0], kept);
    }
  }

  /** When every line has enough columns, strict and lenient split agree and neither fails. */
  lemma {:induction false} StrictAgrees(lines: seq<string>, sels: seq<Selector>, sp: Splitter, lineno: nat)
    requires forall j :: 0 <= j < |lines| ==> Project(Tokenise(lines[j], sp), sels).Some?
    ensures RowsFrom(lines, sels, sp, true, lineno) == RowsFrom(lines, sels, sp, false, lineno)
    ensures RowsFrom(lines, sels, sp, true, lineno).error == None
    decreases |lines|
  {
    if lines != [] {
      StrictAgrees(lines[1..], sels, sp, lineno + 1);
    }
  }
}
