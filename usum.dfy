/**
 * The column aggregator: numbers read from delimited lines are summed, or their
 * minimum or maximum taken, per key made of chosen columns (group_by) or over every
 * token at once (agg_all). Numbers keep the count of digits written after their
 * point, and results are printed with as many digits as the widest input had.
 */
module Usum {
  import opened Wrappers
  import opened Text
  import opened Decimal
  import opened Currency

  // ---------------------------------------------------------------------------
  // num

  function CannotConvert(value: string): string {
    "could not convert '" + value + "' to number"
  }

  /**
   * num: the number a token spells and its precision, which is the scale of the result.
   * Outside strict mode a money-shaped token loses its `$` and `,` first, and a token
   * that still does not parse reads as 0 with precision 0.
   */
  function Num(value: string, strict: bool): (r: Result<Dec, string>)
    ensures !strict ==> r.Ok?
  {
    var v := if !strict && MoneyShaped(value, true) then DropMarks(value) else value;
    match ParseDecimal(v)
    case Some(n) => Ok(n.value)
    case None => if strict then Err(CannotConvert(value)) else Ok(Dec(0, 0))
  }

  /** A token Python's `int()` accepts reads with precision 0; any other number keeps its digits after the point. */
  lemma NumPrecision(value: string)
    requires ParseDecimal(value).Some?
    ensures Num(value, true) == Ok(ParseDecimal(value).value.value)
    ensures ParseDecimal(value).value.integral ==> Num(value, true).value.scale == 0
  {
  }

  /** Strict mode fails exactly on the tokens that are not numerals, naming the token. */
  lemma NumStrictFails(value: string)
    ensures Num(value, true).Err? <==> ParseDecimal(value).None?
    ensures Num(value, true).Err? ==> Num(value, true).error == CannotConvert(value)
  {
  }

  /** Outside strict mode a token that is not a number, once cleaned, reads as 0 with precision 0. */
  lemma NumLenientZero(value: string)
    requires !MoneyShaped(value, true) && ParseDecimal(value).None?
    ensures Num(value, false) == Ok(Dec(0, 0))
  {
  }

  /** Cleaning never changes a numeral: on every token strict mode accepts, both modes agree. */
  lemma NumModesAgree(value: string)
    requires Num(value, true).Ok?
    ensures Num(value, false) == Num(value, true)
  {
    ParsedHasNoMark(value);
    if MoneyShaped(value, true) {
      MoneyShapedHasMark(value, true);
      assert false;
    }
  }

  /** Money cleaning reads a money-shaped token as its digits without the marks. */
  lemma NumMoney(value: string)
    requires MoneyShaped(value, true)
    ensures Num(value, false) == (match ParseDecimal(DropMarks(value))
      case Some(n) => Ok(n.value)
      case None => Ok(Dec(0, 0)))
    ensures Num(value, true).Err?
  {
    MoneyShapedHasMark(value, true);
    if ParseDecimal(value).Some? {
      ParsedHasNoMark(value);
      assert false;
    }
  }

  /** Outside strict mode `-$d,ddd.f` reads as its digits, with the minus and the point kept. */
  lemma NumGroupedMoney(sign: string, lead: string, group: string, frac: string)
    requires GroupedParts(sign, lead, group, frac)
    ensures Num(GroupedMoney(sign, lead, group, frac), false)
      == Ok(Dec(Signed(sign == "-", DigitsValue(lead + group + frac)), |frac|))
    ensures Num(GroupedMoney(sign, lead, group, frac), true).Err?
  {
    var value := GroupedMoney(sign, lead, group, frac);
    GroupedMoneyShaped(sign, lead, group, frac);
    GroupedMoneyDropped(sign, lead, group, frac);
    NumMoney(value);
    var whole := lead + group;
    assert lead + (group + (['.'] + frac)) == whole + "." + frac;
    assert SignText(sign == "-") == sign;
    ParseFraction(sign == "-", whole, frac);
    assert whole + frac == lead + group + frac;
  }

  /** A comma group of other than three digits is not money: the token reads as 0 outside strict mode. */
  lemma NumOddGroup(lead: string, group: string, frac: string)
    requires 1 <= |lead| <= 3 && AllDigits(lead) && |group| != 3 && AllDigits(group)
    requires |frac| > 0 && AllDigits(frac)
    ensures Num(GroupedMoney("", lead, group, frac), false) == Ok(Dec(0, 0))
  {
    var s := GroupedMoney("", lead, group, frac);
    OddGroupNotMoney(lead, group, frac);
    assert StripSign(s) == (false, s);
    assert !AllDigits(s[..FirstSep(s, Char('.'))]) by {
      assert MoneyWhole(lead, group)[0] == '$';
    }
  }

  /** The test suite's money cases: `-$123,456.78` reads as -123456.78 at two places, and `$1,2345.6`, not money, as 0. */
  lemma NumMoneyExamples()
    ensures Num("-$123,456.78", false) == Ok(Dec(-12345678, 2))
    ensures Num("$1,2345.6", false) == Ok(Dec(0, 0))
  {
    assert Num("-$123,456.78", false) == Ok(Dec(-12345678, 2)) by {
      GroupedExample();
      NumGroupedMoney("-", "123", "456", "78");
      DigitsExample();
    }
    assert Num("$1,2345.6", false) == Ok(Dec(0, 0)) by {
      OddGroupExample();
      NumOddGroup("1", "2345", "6");
    }
  }

  lemma GroupedExample()
    ensures GroupedMoney("-", "123", "456", "78") == "-$123,456.78"
    ensures GroupedParts("-", "123", "456", "78")
  {
  }

  lemma OddGroupExample()
    ensures GroupedMoney("", "1", "2345", "6") == "$1,2345.6"
    ensures AllDigits("1") && AllDigits("2345") && AllDigits("6")
  {
  }

  lemma DigitsExample()
    ensures DigitsValue("123" + "456" + "78") == 12345678
  {
    var a, b, c := "123", "456", "78";
    assert DigitsValue(a) == 123 by { assert ShowNat(123) == a; }
    assert DigitsValue(b) == 456 by { assert ShowNat(456) == b; }
    assert DigitsValue(c) == 78 by { assert ShowNat(78) == c; }
    assert DigitsValue(a + b) == 123456 by {
      DigitsValueAppend(a, b);
      assert Pow10(3) == 1000;
    }
    assert DigitsValue(a + b + c) == 12345678 by {
      DigitsValueAppend(a + b, c);
      assert Pow10(2) == 100;
    }
  }

  /** A printed number reads back, in either mode, as the same value at the printed precision. */
  lemma NumRender(d: Dec, places: nat, strict: bool)
    requires d.scale <= places
    ensures Num(Render(d, places), strict) == Ok(Dec(Aligned(d, places), places))
    ensures Value(Num(Render(d, places), strict).value) == Value(d)
  {
    RenderParses(d, places);
    NumModesAgree(Render(d, places));
  }

  /** A numeral holds only digits, a leading sign and a point: never a `$` or a `,`. */
  lemma ParsedHasNoMark(s: string)
    requires ParseDecimal(s).Some?
    ensures forall k :: 0 <= k < |s| ==> !IsMark(s[k])
  {
    var body := StripSign(s).1;
    var off := |s| - |body|;
    assert off == 0 || off == 1;
    assert forall k :: off <= k < |s| ==> s[k] == body[k - off];
    var i := FirstSep(body, Char('.'));
    forall k | 0 <= k < |body|
      ensures !IsMark(body[k])
    {
      if k < i {
        assert body[k] == body[..i][k];
      } else if k > i {
        assert body[k] == body[i + 1..][k - i - 1];
      }
    }
  }

  // ---------------------------------------------------------------------------
  // group_by

  /** The aggregations this model covers (avg divides, and is not part of it). */
  datatype Op = Sum | Min | Max

  const IndexOutOfRange := "list index out of range"

  function ColumnsMismatch(key: string): string {
    "number of columns doesn't match key='" + key + "'"
  }

  /** The text of a UsumException for line number `linenum`. */
  function LineError(linenum: nat, msg: string): string {
    "line=" + ShowNat(linenum) + ": " + msg
  }

  /** Key column numbers start at 1. */
  predicate KeyColumns(cols: seq<int>) {
    forall j :: 0 <= j < |cols| ==> cols[j] >= 1
  }

  /** `[toks[i - 1] for i in cols]`, None when a column is missing (IndexError). */
  function Picks(toks: seq<string>, cols: seq<int>): (r: Option<seq<string>>)
    requires KeyColumns(cols)
    ensures r.Some? <==> forall j :: 0 <= j < |cols| ==> cols[j] <= |toks|
    ensures r.Some? ==> |r.value| == |cols| && forall j :: 0 <= j < |cols| ==> r.value[j] == toks[cols[j] - 1]
  {
    if cols == [] then Some([])
    else
      var c := cols[|cols| - 1];
      match Picks(toks, cols[..|cols| - 1])
      case None => None
      case Some(init) => if c <= |toks| then Some(init + [toks[c - 1]]) else None
  }

  /** The column numbers lo..n that are not key columns, ascending. */
  function ValueColumns(lo: nat, n: nat, cols: seq<int>): (vcols: seq<nat>)
    ensures forall j :: 0 <= j < |vcols| ==> lo <= vcols[j] <= n && vcols[j] !in cols
    ensures forall j, j' :: 0 <= j < j' < |vcols| ==> vcols[j] < vcols[j']
    ensures forall i :: lo <= i <= n && i !in cols ==> i in vcols
    decreases n + 1 - lo
  {
    if lo > n then []
    else if lo in cols then ValueColumns(lo + 1, n, cols)
    else [lo] + ValueColumns(lo + 1, n, cols)
  }

  /** A list built item by item, where the first item that raises ends it with that error. */
  function Collect<T>(rs: seq<Result<T, string>>): (r: Result<seq<T>, string>)
    ensures r.Ok? ==> |r.value| == |rs|
  {
    if rs == [] then Ok([])
    else
      match Collect(rs[..|rs| - 1])
      case Err(e) => Err(e)
      case Ok(init) =>
        match rs[|rs| - 1]
        case Err(e) => Err(e)
        case Ok(v) => Ok(init + [v])
  }

  /** Collect succeeds exactly when every item does, keeping them in order; otherwise it reports the first failure. */
  lemma {:induction false} CollectItems<T>(rs: seq<Result<T, string>>)
    ensures Collect(rs).Ok? <==> forall j :: 0 <= j < |rs| ==> rs[j].Ok?
    ensures Collect(rs).Ok? ==> forall j :: 0 <= j < |rs| ==> rs[j] == Ok(Collect(rs).value[j])
    ensures Collect(rs).Err? ==>
      exists j :: 0 <= j < |rs| && rs[j] == Err(Collect(rs).error) && forall j' :: 0 <= j' < j ==> rs[j'].Ok?
  {
    if rs != [] {
      var init := rs[..|rs| - 1];
      CollectItems(init);
      assert forall j :: 0 <= j < |init| ==> rs[j] == init[j];
    }
  }

  /** `[num(toks[i - 1], strict) for i in vcols]` */
  function Values(toks: seq<string>, vcols: seq<nat>, strict: bool): (r: Result<seq<Dec>, string>)
    requires forall j :: 0 <= j < |vcols| ==> 1 <= vcols[j] <= |toks|
    ensures r.Ok? ==> |r.value| == |vcols|
  {
    Collect(seq(|vcols|, j requires 0 <= j < |vcols| => Num(toks[vcols[j] - 1], strict)))
  }

  /** A line's key, the space-join of its key columns, and its values; or the error reading it raises. */
  function ParseRow(line: string, delim: char, cols: seq<int>, strict: bool): Result<(string, seq<Dec>), string>
    requires KeyColumns(cols)
  {
    var toks := SplitEach(line, Char(delim));
    match Picks(toks, cols)
    case None => Err(IndexOutOfRange)
    case Some(picked) =>
      match Values(toks, ValueColumns(1, |toks|, cols), strict)
      case Err(e) => Err(e)
      case Ok(vals) => Ok((Join(picked, " "), vals))
  }

  /** The running state of group_by: keys in first-seen order, accumulators, counts and precision. */
  datatype Tally = Tally(order: seq<string>, groups: map<string, seq<Dec>>, counts: map<string, nat>, precision: Option<seq<nat>>)

  function Zeros(n: nat): (z: seq<nat>)
    ensures |z| == n && forall i :: 0 <= i < n ==> z[i] == 0
  {
    seq(n, i => 0)
  }

  function ZeroDecs(n: nat): (z: seq<Dec>)
    ensures |z| == n && forall i :: 0 <= i < n ==> z[i] == Dec(0, 0)
  {
    seq(n, i => Dec(0, 0))
  }

  function MinLen(a: nat, b: nat): nat {
    if a < b then a else b
  }

  function MaxNat(a: nat, b: nat): nat {
    if a < b then b else a
  }

  /** `[max(pre, val[1]) for pre, val in zip(precision, values)]` */
  function Widen(precision: seq<nat>, vals: seq<Dec>): seq<nat> {
    seq(MinLen(|precision|, |vals|), i requires 0 <= i < MinLen(|precision|, |vals|) => MaxNat(precision[i], vals[i].scale))
  }

  function Apply(op: Op, acc: Dec, v: Dec): Dec {
    match op
    case Sum => Add(acc, v)
    case Min => Decimal.Min(acc, v)
    case Max => Decimal.Max(acc, v)
  }

  /** `[op(agg_, val[0]) for agg_, val in zip(agg, values)]` */
  function Combine(op: Op, acc: seq<Dec>, vals: seq<Dec>): seq<Dec> {
    seq(MinLen(|acc|, |vals|), i requires 0 <= i < MinLen(|acc|, |vals|) => Apply(op, acc[i], vals[i]))
  }

  /** The accumulator after a row for a key: a new sum starts from zeros, a new min or max is the row itself. */
  function NextAcc(op: Op, agg: Option<seq<Dec>>, vals: seq<Dec>): seq<Dec> {
    match agg
    case None => if op == Sum then Combine(Sum, ZeroDecs(|vals|), vals) else vals
    case Some(acc) => Combine(op, acc, vals)
  }

  /** A row is rejected when its key already has a non-empty accumulator of another width. */
  predicate Mismatch(t: Tally, key: string, vals: seq<Dec>) {
    key in t.groups && t.groups[key] != [] && |vals| != |t.groups[key]|
  }

  /** The state after an accepted row. */
  function Absorb(t: Tally, key: string, vals: seq<Dec>, op: Op): Tally {
    var agg := if key in t.groups then Some(t.groups[key]) else None;
    var start := if t.precision.None? then Zeros(|vals|) else t.precision.value;
    Tally(if agg.None? then t.order + [key] else t.order,
          t.groups[key := NextAcc(op, agg, vals)],
          t.counts[key := (if key in t.counts then t.counts[key] else 0) + 1],
          Some(Widen(start, vals)))
  }

  /** One line of group_by: rejected lines are skipped, or end it with an error in strict mode. */
  function FeedLine(t: Tally, line: string, linenum: nat, delim: char, cols: seq<int>, strict: bool, op: Op): Result<Tally, string>
    requires KeyColumns(cols)
  {
    match ParseRow(line, delim, cols, strict)
    case Err(e) => if strict then Err(LineError(linenum, e)) else Ok(t)
    case Ok((key, vals)) =>
      if Mismatch(t, key, vals) then
        if strict then Err(LineError(linenum, ColumnsMismatch(key))) else Ok(t)
      else Ok(Absorb(t, key, vals, op))
  }

  const NoRows := Tally([], map[], map[], None)

  /** The state group_by reaches after its lines, or the error that stopped it. */
  function Feed(lines: seq<string>, delim: char, cols: seq<int>, strict: bool, op: Op): Result<Tally, string>
    requires KeyColumns(cols)
  {
    if lines == [] then Ok(NoRows)
    else
      match Feed(lines[..|lines| - 1], delim, cols, strict, op)
      case Err(e) => Err(e)
      case Ok(t) => FeedLine(t, lines[|lines| - 1], |lines|, delim, cols, strict, op)
  }

  /**
   * What every reachable state satisfies: the order lists each key once, every key has an
   * accumulator and a positive count, and no accumulated number has more digits after its
   * point than the precision allows.
   */
  predicate Inv(t: Tally) {
    Keyed(t)
    && (forall i, j :: 0 <= i < j < |t.order| ==> t.order[i] != t.order[j])
    && (forall k :: k in t.counts ==> t.counts[k] >= 1)
    && (t.precision.None? <==> t.order == [])
    && (t.precision.Some? ==> forall k, i :: k in t.groups && 0 <= i < |t.groups[k]| && i < |t.precision.value| ==> t.groups[k][i].scale <= t.precision.value[i])
  }

  /** The groups, the counts and the order know the same keys. */
  predicate Keyed(t: Tally) {
    t.groups.Keys == t.counts.Keys
    && (forall k :: k in t.groups ==> k in t.order)
    && (forall k :: k in t.order ==> k in t.groups)
  }

  /** The printed accumulator: `format(col, ".Nf")` for each column the precision covers. */
  function Formatted(acc: seq<Dec>, precision: seq<nat>): seq<string>
    requires forall i :: 0 <= i < |acc| && i < |precision| ==> acc[i].scale <= precision[i]
  {
    seq(MinLen(|acc|, |precision|), i requires 0 <= i < MinLen(|acc|, |precision|) => Render(acc[i], precision[i]))
  }

  /** A key's output line: its count first when asked for, then its formatted accumulator. */
  function Entry(t: Tally, key: string, count: bool): seq<string>
    requires Inv(t) && key in t.order
  {
    var fmt := Formatted(t.groups[key], t.precision.value);
    if count then [ShowNat(t.counts[key])] + fmt else fmt
  }

  /** The output for the given keys, in their order. */
  function Entries(t: Tally, keys: seq<string>, count: bool): seq<(string, seq<string>)>
    requires Inv(t) && forall j :: 0 <= j < |keys| ==> keys[j] in t.order
  {
    if keys == [] then []
    else Entries(t, keys[..|keys| - 1], count) + [(keys[|keys| - 1], Entry(t, keys[|keys| - 1], count))]
  }

  /** The result of group_by: each key in first-seen order with its output line, or the error. */
  function GroupTable(lines: seq<string>, delim: char, cols: seq<int>, strict: bool, count: bool, op: Op): Result<seq<(string, seq<string>)>, string>
    requires KeyColumns(cols)
  {
    match Feed(lines, delim, cols, strict, op)
    case Err(e) => Err(e)
    case Ok(t) => FeedInv(lines, delim, cols, strict, op); Ok(Entries(t, t.order, count))
  }

  /** An accumulated number never has more digits after its point than the numbers combined into it. */
  lemma ApplyScale(op: Op, acc: Dec, v: Dec)
    ensures Apply(op, acc, v).scale <= MaxNat(acc.scale, v.scale)
  {
  }

  /** The new accumulator stays within the widened precision. */
  lemma NextAccScale(op: Op, agg: Option<seq<Dec>>, vals: seq<Dec>, start: seq<nat>, i: nat)
    requires i < |NextAcc(op, agg, vals)| && i < |start| && i < |vals|
    requires agg.Some? ==> i < |agg.value| && agg.value[i].scale <= start[i]
    ensures NextAcc(op, agg, vals)[i].scale <= MaxNat(start[i], vals[i].scale)
  {
    match agg
    case None =>
      if op == Sum {
        ApplyScale(Sum, Dec(0, 0), vals[i]);
      }
    case Some(acc) =>
      ApplyScale(op, acc[i], vals[i]);
  }

  /** An accepted row keeps the bookkeeping part of the invariant: keys, order and counts. */
  lemma AbsorbKeys(t: Tally, key: string, vals: seq<Dec>, op: Op)
    requires Keyed(t) && forall i, j :: 0 <= i < j < |t.order| ==> t.order[i] != t.order[j]
    requires forall k :: k in t.counts ==> t.counts[k] >= 1
    ensures var t' := Absorb(t, key, vals, op);
      t'.groups.Keys == t'.counts.Keys
      && (forall k :: k in t'.groups ==> k in t'.order)
      && (forall k :: k in t'.order ==> k in t'.groups)
      && (forall i, j :: 0 <= i < j < |t'.order| ==> t'.order[i] != t'.order[j])
      && (forall k :: k in t'.counts ==> t'.counts[k] >= 1)
      && t'.precision.Some? && t'.order != []
  {
    var t' := Absorb(t, key, vals, op);
    if key !in t.groups {
      assert key !in t.order;
      forall i, j | 0 <= i < j < |t'.order|
        ensures t'.order[i] != t'.order[j]
      {
        if j == |t.order| {
          assert t'.order[i] == t.order[i];
        }
      }
    }
  }

  /** An accepted row keeps the invariant. */
  lemma AbsorbInv(t: Tally, key: string, vals: seq<Dec>, op: Op)
    requires Inv(t) && !Mismatch(t, key, vals)
    ensures Inv(Absorb(t, key, vals, op))
  {
    AbsorbKeys(t, key, vals, op);
    AbsorbScales(t, key, vals, op);
  }

  /** An accepted row keeps every accumulated number within the widened precision. */
  lemma AbsorbScales(t: Tally, key: string, vals: seq<Dec>, op: Op)
    requires t.precision.Some? ==> forall k, i :: k in t.groups && 0 <= i < |t.groups[k]| && i < |t.precision.value| ==> t.groups[k][i].scale <= t.precision.value[i]
    requires t.precision.None? ==> t.groups.Keys == {}
    ensures var t' := Absorb(t, key, vals, op);
      forall k, i :: k in t'.groups && 0 <= i < |t'.groups[k]| && i < |t'.precision.value| ==> t'.groups[k][i].scale <= t'.precision.value[i]
  {
    var t' := Absorb(t, key, vals, op);
    var p' := t'.precision.value;
    var agg := if key in t.groups then Some(t.groups[key]) else None;
    var start := if t.precision.None? then Zeros(|vals|) else t.precision.value;
    assert p' == Widen(start, vals);
    forall k, i | k in t'.groups && 0 <= i < |t'.groups[k]| && i < |p'|
      ensures t'.groups[k][i].scale <= p'[i]
    {
      assert p'[i] == MaxNat(start[i], vals[i].scale);
      if k == key {
        NextAccScale(op, agg, vals, start, i);
      } else {
        assert t.groups[k][i].scale <= start[i];
      }
    }
  }

  /** Every state group_by reaches keeps the invariant. */
  lemma {:induction false} FeedInv(lines: seq<string>, delim: char, cols: seq<int>, strict: bool, op: Op)
    requires KeyColumns(cols)
    ensures Feed(lines, delim, cols, strict, op).Ok? ==> Inv(Feed(lines, delim, cols, strict, op).value)
  {
    if lines != [] {
      var init := lines[..|lines| - 1];
      FeedInv(init, delim, cols, strict, op);
      var r := Feed(init, delim, cols, strict, op);
      if r.Ok? {
        var row := ParseRow(lines[|lines| - 1], delim, cols, strict);
        if row.Ok? && !Mismatch(r.value, row.value.0, row.value.1) {
          AbsorbInv(r.value, row.value.0, row.value.1, op);
        }
      }
    }
  }

  /**
   * group_by: reads every line into the groups, counts and precision, then prints each
   * key's accumulator in first-seen order.
   */
  method GroupBy(lines: seq<string>, cols: seq<int>, delim: char, strict: bool, count: bool, op: Op)
    returns (r: Result<seq<(string, seq<string>)>, string>)
    requires KeyColumns(cols)
    ensures r == GroupTable(lines, delim, cols, strict, count, op)
  {
    var order: seq<string> := [];
    var groups: map<string, seq<Dec>> := map[];
    var counts: map<string, nat> := map[];
    var precision: Option<seq<nat>> := None;
    var n := 0;
    while n < |lines|
      invariant 0 <= n <= |lines|
      invariant Feed(lines[..n], delim, cols, strict, op) == Ok(Tally(order, groups, counts, precision))
    {
      FeedNext(lines, n, delim, cols, strict, op);
      ghost var t := Tally(order, groups, counts, precision);
      var row := ParseRow(lines[n], delim, cols, strict);
      FeedLineCases(t, lines[n], n + 1, delim, cols, strict, op);
      if row.Err? {
        if strict {
          FeedErrPersists(lines, n + 1, delim, cols, strict, op);
          return Err(LineError(n + 1, row.error));
        }
      } else {
        var key, values := row.value.0, row.value.1;
        if key in groups && groups[key] != [] && |values| != |groups[key]| {
          if strict {
            FeedErrPersists(lines, n + 1, delim, cols, strict, op);
            return Err(LineError(n + 1, ColumnsMismatch(key)));
          }
        } else {
          order, groups, counts, precision := AbsorbRow(order, groups, counts, precision, key, values, op);
        }
      }
      n := n + 1;
    }
    assert lines[..n] == lines;
    FeedInv(lines, delim, cols, strict, op);
    var out := Flush(order, groups, counts, precision, count);
    r := Ok(out);
  }

  /** The flush loop of group_by: one output line per key, in first-seen order. */
  method Flush(order: seq<string>, groups: map<string, seq<Dec>>, counts: map<string, nat>, precision: Option<seq<nat>>, count: bool)
    returns (out: seq<(string, seq<string>)>)
    requires Inv(Tally(order, groups, counts, precision))
    ensures out == Entries(Tally(order, groups, counts, precision), order, count)
  {
    ghost var t := Tally(order, groups, counts, precision);
    out := [];
    var j := 0;
    while j < |order|
      invariant 0 <= j <= |order|
      invariant out == Entries(t, order[..j], count)
    {
      var key := order[j];
      var fmt := Formatted(groups[key], precision.value);
      var entry := if count then [ShowNat(counts[key])] + fmt else fmt;
      EntriesNext(t, j, count);
      out := out + [(key, entry)];
      j := j + 1;
    }
    assert order[..j] == order;
  }

  /** The output for the first j + 1 keys is that for the first j, then the entry of key j. */
  lemma EntriesNext(t: Tally, j: nat, count: bool)
    requires Inv(t) && j < |t.order|
    ensures Entries(t, t.order[..j + 1], count) == Entries(t, t.order[..j], count) + [(t.order[j], Entry(t, t.order[j], count))]
  {
    assert t.order[..j + 1][..j] == t.order[..j];
  }

  lemma FeedNext(lines: seq<string>, n: nat, delim: char, cols: seq<int>, strict: bool, op: Op)
    requires KeyColumns(cols) && n < |lines|
    ensures Feed(lines[..n + 1], delim, cols, strict, op) ==
      match Feed(lines[..n], delim, cols, strict, op)
      case Err(e) => Err(e)
      case Ok(t) => FeedLine(t, lines[n], n + 1, delim, cols, strict, op)
  {
    assert lines[..n + 1][..n] == lines[..n];
  }

  /** Once group_by has stopped with an error, later lines change nothing. */
  lemma {:induction false} FeedErrPersists(lines: seq<string>, m: nat, delim: char, cols: seq<int>, strict: bool, op: Op)
    requires KeyColumns(cols) && m <= |lines| && Feed(lines[..m], delim, cols, strict, op).Err?
    ensures Feed(lines, delim, cols, strict, op) == Feed(lines[..m], delim, cols, strict, op)
    decreases |lines| - m
  {
    if m == |lines| {
      assert lines[..m] == lines;
    } else {
      FeedNext(lines, m, delim, cols, strict, op);
      FeedErrPersists(lines, m + 1, delim, cols, strict, op);
    }
  }

  /** FeedLine by cases of the line's reading. */
  lemma FeedLineCases(t: Tally, line: string, linenum: nat, delim: char, cols: seq<int>, strict: bool, op: Op)
    requires KeyColumns(cols)
    ensures var row := ParseRow(line, delim, cols, strict);
      FeedLine(t, line, linenum, delim, cols, strict, op) ==
        if row.Err? then (if strict then Err(LineError(linenum, row.error)) else Ok(t))
        else if Mismatch(t, row.value.0, row.value.1) then
          (if strict then Err(LineError(linenum, ColumnsMismatch(row.value.0))) else Ok(t))
        else Ok(Absorb(t, row.value.0, row.value.1, op))
  {
  }

  /** The body of group_by's line loop for an accepted row: precision, count, order and accumulator. */
  method AbsorbRow(order: seq<string>, groups: map<string, seq<Dec>>, counts: map<string, nat>, precision: Option<seq<nat>>,
                   key: string, values: seq<Dec>, op: Op)
    returns (newOrder: seq<string>, newGroups: map<string, seq<Dec>>, newCounts: map<string, nat>, newPrecision: Option<seq<nat>>)
    ensures Tally(newOrder, newGroups, newCounts, newPrecision) == Absorb(Tally(order, groups, counts, precision), key, values, op)
  {
    var agg := if key in groups then Some(groups[key]) else None;
    newPrecision := precision;
    if newPrecision.None? {
      newPrecision := Some(Zeros(|values|));
    }
    newPrecision := Some(Widen(newPrecision.value, values));
    newCounts := counts[key := (if key in counts then counts[key] else 0) + 1];
    newOrder := if agg.None? then order + [key] else order;
    newGroups := groups[key := NextAcc(op, agg, values)];
  }

  // ---------------------------------------------------------------------------
  // What group_by computes, stated over the rows it accepts

  /** The rows group_by accepts, in line order: those read without error whose width fits their key. */
  function Accepted(lines: seq<string>, delim: char, cols: seq<int>, strict: bool, op: Op): seq<(string, seq<Dec>)>
    requires KeyColumns(cols)
  {
    if lines == [] then []
    else
      var init := lines[..|lines| - 1];
      var prior := Accepted(init, delim, cols, strict, op);
      match Feed(init, delim, cols, strict, op)
      case Err(_) => prior
      case Ok(t) =>
        var row := ParseRow(lines[|lines| - 1], delim, cols, strict);
        if row.Err? || Mismatch(t, row.value.0, row.value.1) then prior else prior + [row.value]
  }

  /** The values of the rows with key `k`, in order. */
  function RowsOf(k: string, rows: seq<(string, seq<Dec>)>): seq<seq<Dec>> {
    if rows == [] then []
    else RowsOf(k, rows[..|rows| - 1]) + (if rows[|rows| - 1].0 == k then [rows[|rows| - 1].1] else [])
  }

  lemma RowsOfSnoc(k: string, rows: seq<(string, seq<Dec>)>, row: (string, seq<Dec>))
    ensures RowsOf(k, rows + [row]) == RowsOf(k, rows) + (if row.0 == k then [row.1] else [])
  {
    assert (rows + [row])[..|rows|] == rows;
  }

  /** The exact sum of column i over the rows. */
  ghost function Total(rs: seq<seq<Dec>>, i: nat): real
    requires forall q :: 0 <= q < |rs| ==> i < |rs[q]|
  {
    if rs == [] then 0.0 else Total(rs[..|rs| - 1], i) + Value(rs[|rs| - 1][i])
  }

  /** Each key's count is its number of accepted rows, and a key has a group exactly when it has such a row. */
  predicate Counted(t: Tally, rows: seq<(string, seq<Dec>)>) {
    (forall k :: k in t.counts ==> t.counts[k] == |RowsOf(k, rows)|)
    && (forall q :: 0 <= q < |rows| ==> rows[q].0 in t.counts)
  }

  /** A key's accumulator is as wide as its first row, and once non-empty every row of the key has that width. */
  predicate Widths(t: Tally, rows: seq<(string, seq<Dec>)>) {
    forall k :: k in t.groups ==>
      |RowsOf(k, rows)| > 0 && |t.groups[k]| == |RowsOf(k, rows)[0]|
      && (t.groups[k] != [] ==> forall q :: 0 <= q < |RowsOf(k, rows)| ==> |RowsOf(k, rows)[q]| == |t.groups[k]|)
  }

  /** What one accumulated column holds: the exact sum of the column, or its minimum or maximum, attained by a row. */
  ghost predicate Folded(v: Dec, rs: seq<seq<Dec>>, i: nat, op: Op)
    requires forall q :: 0 <= q < |rs| ==> i < |rs[q]|
  {
    match op
    case Sum => Value(v) == Total(rs, i)
    case Min =>
      (forall q :: 0 <= q < |rs| ==> Value(v) <= Value(rs[q][i]))
      && (exists q :: 0 <= q < |rs| && v == rs[q][i])
    case Max =>
      (forall q :: 0 <= q < |rs| ==> Value(v) >= Value(rs[q][i]))
      && (exists q :: 0 <= q < |rs| && v == rs[q][i])
  }

  /** Every accumulated column is the fold of its key's rows. */
  ghost predicate Aggregated(t: Tally, rows: seq<(string, seq<Dec>)>, op: Op)
    requires Widths(t, rows)
  {
    forall k :: k in t.groups ==>
      forall i :: 0 <= i < |t.groups[k]| ==> Folded(t.groups[k][i], RowsOf(k, rows), i, op)
  }

  /** The precision is as long as the narrowest row, and each entry is the most digits after the point in its column. */
  predicate Widest(precision: Option<seq<nat>>, rows: seq<(string, seq<Dec>)>) {
    (precision.None? <==> rows == [])
    && (precision.Some? ==>
      var p := precision.value;
      (forall q :: 0 <= q < |rows| ==> |p| <= |rows[q].1|)
      && (exists q :: 0 <= q < |rows| && |rows[q].1| == |p|)
      && (forall q, i :: 0 <= q < |rows| && 0 <= i < |p| ==> rows[q].1[i].scale <= p[i])
      && (forall i :: 0 <= i < |p| ==> exists q :: 0 <= q < |rows| && rows[q].1[i].scale == p[i]))
  }

  /** The keys of the rows, each once, in the order of their first row. */
  function KeysOf(rows: seq<(string, seq<Dec>)>): seq<string> {
    if rows == [] then []
    else
      var ks := KeysOf(rows[..|rows| - 1]);
      if rows[|rows| - 1].0 in ks then ks else ks + [rows[|rows| - 1].0]
  }


  /** A key with rows occurs in some row. */
  lemma {:induction false} RowsOfFound(k: string, rows: seq<(string, seq<Dec>)>)
    requires RowsOf(k, rows) != []
    ensures exists q :: 0 <= q < |rows| && rows[q].0 == k
  {
    var init := rows[..|rows| - 1];
    if rows[|rows| - 1].0 != k {
      RowsOfFound(k, init);
      var q :| 0 <= q < |init| && init[q].0 == k;
      assert rows[q] == init[q];
    }
  }

  /** A key the counts do not know has no accepted rows yet. */
  lemma UnseenKey(t: Tally, rows: seq<(string, seq<Dec>)>, key: string)
    requires Counted(t, rows) && key !in t.counts
    ensures RowsOf(key, rows) == []
  {
    if RowsOf(key, rows) != [] {
      RowsOfFound(key, rows);
    }
  }

  lemma CountedStep(t: Tally, rows: seq<(string, seq<Dec>)>, key: string, vals: seq<Dec>, op: Op)
    requires Counted(t, rows)
    ensures Counted(Absorb(t, key, vals, op), rows + [(key, vals)])
  {
    var t' := Absorb(t, key, vals, op);
    var rows' := rows + [(key, vals)];
    if key !in t.counts {
      UnseenKey(t, rows, key);
    }
    forall k | k in t'.counts
      ensures t'.counts[k] == |RowsOf(k, rows')|
    {
      RowsOfSnoc(k, rows, (key, vals));
    }
    forall q | 0 <= q < |rows'|
      ensures rows'[q].0 in t'.counts
    {
      if q < |rows| {
        assert rows'[q] == rows[q];
      }
    }
  }

  lemma WidthsStep(t: Tally, rows: seq<(string, seq<Dec>)>, key: string, vals: seq<Dec>, op: Op)
    requires Keyed(t) && Counted(t, rows) && Widths(t, rows) && !Mismatch(t, key, vals)
    ensures Widths(Absorb(t, key, vals, op), rows + [(key, vals)])
  {
    var t' := Absorb(t, key, vals, op);
    var rows' := rows + [(key, vals)];
    forall k | k in t'.groups
      ensures |RowsOf(k, rows')| > 0 && |t'.groups[k]| == |RowsOf(k, rows')[0]|
      ensures t'.groups[k] != [] ==> forall q :: 0 <= q < |RowsOf(k, rows')| ==> |RowsOf(k, rows')[q]| == |t'.groups[k]|
    {
      if k == key {
        WidthsOwn(t, rows, key, vals, op);
      } else {
        assert t'.groups[k] == t.groups[k];
        RowsOfSnoc(k, rows, (key, vals));
      }
    }
  }

  /** The accepted row's key: its accumulators are as wide as its first row, and so is every row when they are not empty. */
  lemma WidthsOwn(t: Tally, rows: seq<(string, seq<Dec>)>, key: string, vals: seq<Dec>, op: Op)
    requires Keyed(t) && Counted(t, rows) && Widths(t, rows) && !Mismatch(t, key, vals)
    ensures var g := Absorb(t, key, vals, op).groups[key]; var rs := RowsOf(key, rows + [(key, vals)]);
      |rs| > 0 && |g| == |rs[0]| && (g != [] ==> forall q :: 0 <= q < |rs| ==> |rs[q]| == |g|)
  {
    RowsOfSnoc(key, rows, (key, vals));
    if key !in t.groups {
      UnseenKey(t, rows, key);
    }
  }

  /** Folding one more row into a column keeps it the fold of the rows. */
  lemma FoldedStep(v: Dec, rs: seq<seq<Dec>>, i: nat, op: Op, x: seq<Dec>)
    requires forall q :: 0 <= q < |rs| ==> i < |rs[q]|
    requires i < |x| && Folded(v, rs, i, op)
    ensures Folded(Apply(op, v, x[i]), rs + [x], i, op)
  {
    var rs' := rs + [x];
    assert rs'[..|rs|] == rs;
    assert forall q :: 0 <= q < |rs| ==> rs'[q] == rs[q];
    var w := Apply(op, v, x[i]);
    match op
    case Sum =>
      AddValue(v, x[i]);
    case Min =>
      MinMaxValue(v, x[i]);
      if w == v {
        var q :| 0 <= q < |rs| && v == rs[q][i];
        assert w == rs'[q][i];
      } else {
        assert w == rs'[|rs|][i];
      }
    case Max =>
      MinMaxValue(v, x[i]);
      if w == v {
        var q :| 0 <= q < |rs| && v == rs[q][i];
        assert w == rs'[q][i];
      } else {
        assert w == rs'[|rs|][i];
      }
  }

  /** A key's first row starts each column's fold. */
  lemma FoldedFirst(x: seq<Dec>, i: nat, op: Op)
    requires i < |x|
    ensures i < |NextAcc(op, None, x)| && Folded(NextAcc(op, None, x)[i], [x], i, op)
  {
    assert [x][..0] == [];
    if op == Sum {
      assert NextAcc(op, None, x)[i] == Add(Dec(0, 0), x[i]);
    } else {
      assert NextAcc(op, None, x)[i] == [x][0][i];
    }
  }

  lemma AggregatedStep(t: Tally, rows: seq<(string, seq<Dec>)>, key: string, vals: seq<Dec>, op: Op)
    requires Keyed(t) && Counted(t, rows) && Widths(t, rows) && !Mismatch(t, key, vals)
    requires Widths(Absorb(t, key, vals, op), rows + [(key, vals)])
    requires Aggregated(t, rows, op)
    ensures Aggregated(Absorb(t, key, vals, op), rows + [(key, vals)], op)
  {
    var t' := Absorb(t, key, vals, op);
    var rows' := rows + [(key, vals)];
    forall k | k in t'.groups
      ensures forall i :: 0 <= i < |t'.groups[k]| ==> Folded(t'.groups[k][i], RowsOf(k, rows'), i, op)
    {
      if k == key {
        AggregatedOwn(t, rows, key, vals, op);
      } else {
        assert t'.groups[k] == t.groups[k];
        RowsOfSnoc(k, rows, (key, vals));
        AggregatedOther(t, rows, op, k, RowsOf(k, rows'));
      }
    }
  }

  /** The accepted row's key: its accumulators fold the row in. */
  lemma AggregatedOwn(t: Tally, rows: seq<(string, seq<Dec>)>, key: string, vals: seq<Dec>, op: Op)
    requires Keyed(t) && Counted(t, rows) && Widths(t, rows) && !Mismatch(t, key, vals)
    requires Widths(Absorb(t, key, vals, op), rows + [(key, vals)])
    requires Aggregated(t, rows, op)
    ensures var g := Absorb(t, key, vals, op).groups[key];
      forall i :: 0 <= i < |g| ==> Folded(g[i], RowsOf(key, rows + [(key, vals)]), i, op)
  {
    RowsOfSnoc(key, rows, (key, vals));
    var agg := if key in t.groups then Some(t.groups[key]) else None;
    if key !in t.groups {
      UnseenKey(t, rows, key);
    }
    AggregatedKey(agg, RowsOf(key, rows), vals, op);
  }

  /** Any other key keeps its accumulators and its rows. */
  lemma AggregatedOther(t: Tally, rows: seq<(string, seq<Dec>)>, op: Op, k: string, rs: seq<seq<Dec>>)
    requires Widths(t, rows) && Aggregated(t, rows, op) && k in t.groups && rs == RowsOf(k, rows)
    ensures forall i :: 0 <= i < |t.groups[k]| ==> Folded(t.groups[k][i], rs, i, op)
  {
  }

  /** The accepted row's own key: its accumulator folds in the new row. */
  lemma AggregatedKey(agg: Option<seq<Dec>>, rs: seq<seq<Dec>>, vals: seq<Dec>, op: Op)
    requires agg.None? ==> rs == []
    requires agg.Some? && agg.value != [] ==> |vals| == |agg.value| && forall q :: 0 <= q < |rs| ==> |rs[q]| == |agg.value|
    requires agg.Some? ==> forall i :: 0 <= i < |agg.value| ==> Folded(agg.value[i], rs, i, op)
    ensures var g' := NextAcc(op, agg, vals);
      (forall q :: 0 <= q < |rs + [vals]| ==> |g'| <= |(rs + [vals])[q]|)
      && forall i :: 0 <= i < |g'| ==> Folded(g'[i], rs + [vals], i, op)
  {
    var g' := NextAcc(op, agg, vals);
    var rs' := rs + [vals];
    if agg.None? {
      assert rs' == [vals];
      forall i | 0 <= i < |g'|
        ensures Folded(g'[i], rs', i, op)
      {
        FoldedFirst(vals, i, op);
      }
    } else {
      var g := agg.value;
      forall i | 0 <= i < |g'|
        ensures Folded(g'[i], rs', i, op)
      {
        assert g'[i] == Apply(op, g[i], vals[i]);
        FoldedStep(g[i], rs, i, op, vals);
      }
    }
  }



  /** Widening the precision by a row keeps it the column-wise maximum over the rows. */
  lemma WidestStep(precision: Option<seq<nat>>, rows: seq<(string, seq<Dec>)>, key: string, vals: seq<Dec>)
    requires Widest(precision, rows)
    ensures Widest(Some(Widen(if precision.None? then Zeros(|vals|) else precision.value, vals)), rows + [(key, vals)])
  {
    if precision.None? {
      WidestFirst(rows, key, vals);
    } else {
      WidestNext(precision.value, rows, key, vals);
    }
  }

  /** The first row's precision is its own. */
  lemma WidestFirst(rows: seq<(string, seq<Dec>)>, key: string, vals: seq<Dec>)
    requires rows == []
    ensures Widest(Some(Widen(Zeros(|vals|), vals)), rows + [(key, vals)])
  {
    var rows' := rows + [(key, vals)];
    var p' := Widen(Zeros(|vals|), vals);
    assert rows' == [(key, vals)];
    forall i | 0 <= i < |p'|
      ensures exists q :: 0 <= q < |rows'| && rows'[q].1[i].scale == p'[i]
    {
      assert rows'[0].1[i].scale == p'[i];
    }
  }

  /** A later row widens each column's precision to its own where it is wider. */
  lemma WidestNext(p: seq<nat>, rows: seq<(string, seq<Dec>)>, key: string, vals: seq<Dec>)
    requires Widest(Some(p), rows)
    ensures Widest(Some(Widen(p, vals)), rows + [(key, vals)])
  {
    var rows' := rows + [(key, vals)];
    var p' := Widen(p, vals);
    assert forall q :: 0 <= q < |rows| ==> rows'[q] == rows[q];
    assert rows'[|rows|] == (key, vals);
    assert exists q :: 0 <= q < |rows'| && |rows'[q].1| == |p'| by {
      if |vals| > |p| {
        var q :| 0 <= q < |rows| && |rows[q].1| == |p|;
        assert |rows'[q].1| == |p'|;
      } else {
        assert |rows'[|rows|].1| == |p'|;
      }
    }
    forall i | 0 <= i < |p'|
      ensures exists q :: 0 <= q < |rows'| && rows'[q].1[i].scale == p'[i]
    {
      if p'[i] == p[i] {
        var q :| 0 <= q < |rows| && rows[q].1[i].scale == p[i];
        assert rows'[q].1[i].scale == p'[i];
      } else {
        assert rows'[|rows|].1[i].scale == p'[i];
      }
    }
  }

  /** KeysOf lists exactly the keys that have rows. */
  lemma {:induction false} KeysOfListed(rows: seq<(string, seq<Dec>)>)
    ensures forall k :: k in KeysOf(rows) <==> exists q :: 0 <= q < |rows| && rows[q].0 == k
  {
    if rows != [] {
      var init := rows[..|rows| - 1];
      KeysOfListed(init);
      assert forall q :: 0 <= q < |init| ==> rows[q] == init[q];
      forall k | k in KeysOf(rows)
        ensures exists q :: 0 <= q < |rows| && rows[q].0 == k
      {
        if k in KeysOf(init) {
          var q :| 0 <= q < |init| && init[q].0 == k;
          assert rows[q].0 == k;
        }
      }
    }
  }

  /** KeysOf names each key once. */
  lemma {:induction false} KeysOfDistinct(rows: seq<(string, seq<Dec>)>)
    ensures forall i, j :: 0 <= i < j < |KeysOf(rows)| ==> KeysOf(rows)[i] != KeysOf(rows)[j]
  {
    if rows != [] {
      KeysOfDistinct(rows[..|rows| - 1]);
    }
  }

  /** A key listed after another has no row before the other's first row. */
  lemma {:induction false} KeysOfFirstSeen(rows: seq<(string, seq<Dec>)>, i: nat, j: nat, q: nat) returns (first: nat)
    requires i < j < |KeysOf(rows)| && q < |rows| && rows[q].0 == KeysOf(rows)[j]
    ensures first < q && rows[first].0 == KeysOf(rows)[i]
  {
    var init := rows[..|rows| - 1];
    var ks, ks' := KeysOf(init), KeysOf(rows);
    KeysOfListed(init);
    assert forall j :: 0 <= j < |ks| ==> ks'[j] == ks[j];
    if q < |init| {
      assert init[q] == rows[q];
      if j < |ks| {
        first := KeysOfFirstSeen(init, i, j, q);
        assert rows[first] == init[first];
      } else {
        assert false;
      }
    } else {
      assert ks[i] in ks;
      var r :| 0 <= r < |init| && init[r].0 == ks[i];
      assert rows[r] == init[r];
      first := r;
    }
  }



  /** The state agrees with the accepted rows: counts, widths, accumulators, precision and key order. */
  ghost predicate Agrees(t: Tally, rows: seq<(string, seq<Dec>)>, op: Op) {
    Counted(t, rows) && Widths(t, rows) && Aggregated(t, rows, op) && Widest(t.precision, rows) && t.order == KeysOf(rows)
  }

  lemma AgreesStep(t: Tally, rows: seq<(string, seq<Dec>)>, key: string, vals: seq<Dec>, op: Op)
    requires Keyed(t) && Agrees(t, rows, op) && !Mismatch(t, key, vals)
    ensures Agrees(Absorb(t, key, vals, op), rows + [(key, vals)], op)
  {
    var t' := Absorb(t, key, vals, op);
    var rows' := rows + [(key, vals)];
    CountedStep(t, rows, key, vals, op);
    WidthsStep(t, rows, key, vals, op);
    AggregatedStep(t, rows, key, vals, op);
    WidestStep(t.precision, rows, key, vals);
    assert t'.precision == Some(Widen(if t.precision.None? then Zeros(|vals|) else t.precision.value, vals));
    assert rows'[..|rows|] == rows;
    assert t'.order == KeysOf(rows');
  }

  /**
   * What group_by computes, in terms of the rows it accepts: each key's count is its
   * number of rows, each accumulated column the sum, minimum or maximum of the key's
   * rows, the precision the widest scale of each column over all rows, and the keys
   * come in the order of their first rows.
   */
  lemma {:induction false} FeedAgrees(lines: seq<string>, delim: char, cols: seq<int>, strict: bool, op: Op)
    requires KeyColumns(cols) && Feed(lines, delim, cols, strict, op).Ok?
    ensures Agrees(Feed(lines, delim, cols, strict, op).value, Accepted(lines, delim, cols, strict, op), op)
  {
    if lines != [] {
      var init := lines[..|lines| - 1];
      FeedAgrees(init, delim, cols, strict, op);
      FeedInv(init, delim, cols, strict, op);
      FeedLast(lines, delim, cols, strict, op);
      var t := Feed(init, delim, cols, strict, op).value;
      var row := ParseRow(lines[|lines| - 1], delim, cols, strict);
      if row.Ok? && !Mismatch(t, row.value.0, row.value.1) {
        AgreesStep(t, Accepted(init, delim, cols, strict, op), row.value.0, row.value.1, op);
      }
    }
  }

  /** The last line of a run that did not stop: either skipped, or absorbed and accepted. */
  lemma FeedLast(lines: seq<string>, delim: char, cols: seq<int>, strict: bool, op: Op)
    requires KeyColumns(cols) && lines != [] && Feed(lines, delim, cols, strict, op).Ok?
    ensures var init := lines[..|lines| - 1];
      var row := ParseRow(lines[|lines| - 1], delim, cols, strict);
      Feed(init, delim, cols, strict, op).Ok?
      && var t := Feed(init, delim, cols, strict, op).value;
      if row.Err? || Mismatch(t, row.value.0, row.value.1) then
        Feed(lines, delim, cols, strict, op).value == t && Accepted(lines, delim, cols, strict, op) == Accepted(init, delim, cols, strict, op)
      else
        Feed(lines, delim, cols, strict, op).value == Absorb(t, row.value.0, row.value.1, op)
        && Accepted(lines, delim, cols, strict, op) == Accepted(init, delim, cols, strict, op) + [row.value]
  {
    var init := lines[..|lines| - 1];
    FeedLineCases(Feed(init, delim, cols, strict, op).value, lines[|lines| - 1], |lines|, delim, cols, strict, op);
  }

  /** Outside strict mode group_by never stops: every line is absorbed or skipped. */
  lemma {:induction false} FeedLenient(lines: seq<string>, delim: char, cols: seq<int>, op: Op)
    requires KeyColumns(cols)
    ensures Feed(lines, delim, cols, false, op).Ok?
  {
    if lines != [] {
      var init := lines[..|lines| - 1];
      FeedLenient(init, delim, cols, op);
      FeedLineCases(Feed(init, delim, cols, false, op).value, lines[|lines| - 1], |lines|, delim, cols, false, op);
    }
  }

  /**
   * A line that raises, or whose width does not fit its key's accumulator, changes nothing
   * outside strict mode; in strict mode it ends group_by with the line's number and the
   * error's text.
   */
  lemma FeedRejected(lines: seq<string>, line: string, delim: char, cols: seq<int>, strict: bool, op: Op)
    requires KeyColumns(cols) && Feed(lines, delim, cols, strict, op).Ok?
    requires var row := ParseRow(line, delim, cols, strict);
      row.Err? || Mismatch(Feed(lines, delim, cols, strict, op).value, row.value.0, row.value.1)
    ensures var row := ParseRow(line, delim, cols, strict);
      var msg := if row.Err? then row.error else ColumnsMismatch(row.value.0);
      Feed(lines + [line], delim, cols, strict, op)
        == (if strict then Err(LineError(|lines| + 1, msg)) else Feed(lines, delim, cols, strict, op))
      && Accepted(lines + [line], delim, cols, strict, op) == Accepted(lines, delim, cols, strict, op)
  {
    var all := lines + [line];
    assert all[..|all| - 1] == lines;
    FeedLineCases(Feed(lines, delim, cols, strict, op).value, line, |all|, delim, cols, strict, op);
  }

  /** An accepted line is folded into the state and joins the accepted rows. */
  lemma FeedAccepted(lines: seq<string>, line: string, delim: char, cols: seq<int>, strict: bool, op: Op)
    requires KeyColumns(cols) && Feed(lines, delim, cols, strict, op).Ok?
    requires var row := ParseRow(line, delim, cols, strict);
      row.Ok? && !Mismatch(Feed(lines, delim, cols, strict, op).value, row.value.0, row.value.1)
    ensures var row := ParseRow(line, delim, cols, strict);
      Feed(lines + [line], delim, cols, strict, op) == Ok(Absorb(Feed(lines, delim, cols, strict, op).value, row.value.0, row.value.1, op))
      && Accepted(lines + [line], delim, cols, strict, op) == Accepted(lines, delim, cols, strict, op) + [row.value]
  {
    var all := lines + [line];
    assert all[..|all| - 1] == lines;
    FeedLineCases(Feed(lines, delim, cols, strict, op).value, line, |all|, delim, cols, strict, op);
  }

  /** The output has one entry per key, in the given order. */
  lemma {:induction false} EntriesAt(t: Tally, keys: seq<string>, count: bool)
    requires Inv(t) && forall j :: 0 <= j < |keys| ==> keys[j] in t.order
    ensures |Entries(t, keys, count)| == |keys|
    ensures forall j :: 0 <= j < |keys| ==> Entries(t, keys, count)[j] == (keys[j], Entry(t, keys[j], count))
  {
    if keys != [] {
      var init := keys[..|keys| - 1];
      EntriesAt(t, init, count);
    }
  }

  /** A formatted column reads back as its accumulated value, with the column's precision. */
  lemma FormattedReads(acc: seq<Dec>, precision: seq<nat>, i: nat)
    requires forall j :: 0 <= j < |acc| && j < |precision| ==> acc[j].scale <= precision[j]
    requires i < |acc| && i < |precision|
    ensures |Formatted(acc, precision)| == MinLen(|acc|, |precision|)
    ensures var n := ParseDecimal(Formatted(acc, precision)[i]);
      n.Some? && n.value.value.scale == precision[i] && Value(n.value.value) == Value(acc[i])
  {
    RenderParses(acc[i], precision[i]);
  }

  /**
   * group_by's result, in terms of the accepted rows: one entry per key in the order of
   * the key's first row, its count of rows first when asked for, then one formatted
   * column per accumulated column the precision covers.
   */
  lemma GroupTableOutput(lines: seq<string>, delim: char, cols: seq<int>, strict: bool, count: bool, op: Op)
    requires KeyColumns(cols) && Feed(lines, delim, cols, strict, op).Ok?
    ensures var t := Feed(lines, delim, cols, strict, op).value;
      var rows := Accepted(lines, delim, cols, strict, op);
      var r := GroupTable(lines, delim, cols, strict, count, op);
      Inv(t) && r.Ok? && |r.value| == |KeysOf(rows)|
      && forall j :: 0 <= j < |r.value| ==>
        var key := KeysOf(rows)[j];
        key in t.groups && r.value[j].0 == key
        && r.value[j].1 == (if count then [ShowNat(|RowsOf(key, rows)|)] else []) + Formatted(t.groups[key], t.precision.value)
  {
    var t := Feed(lines, delim, cols, strict, op).value;
    var rows := Accepted(lines, delim, cols, strict, op);
    FeedInv(lines, delim, cols, strict, op);
    assert t.order == KeysOf(rows) && Counted(t, rows) by {
      FeedAgrees(lines, delim, cols, strict, op);
    }
    assert GroupTable(lines, delim, cols, strict, count, op) == Ok(Entries(t, t.order, count));
    TableOutput(t, rows, count);
  }

  /** The entries of a state that agrees with the accepted rows: one per key, in first-seen order, with the key's count when asked for. */
  lemma TableOutput(t: Tally, rows: seq<(string, seq<Dec>)>, count: bool)
    requires Inv(t) && t.order == KeysOf(rows) && Counted(t, rows)
    ensures var r := Entries(t, t.order, count);
      |r| == |KeysOf(rows)|
      && forall j :: 0 <= j < |r| ==>
        var key := KeysOf(rows)[j];
        key in t.groups && r[j].0 == key
        && r[j].1 == (if count then [ShowNat(|RowsOf(key, rows)|)] else []) + Formatted(t.groups[key], t.precision.value)
  {
    EntriesAt(t, t.order, count);
    forall j | 0 <= j < |t.order|
      ensures var key := KeysOf(rows)[j];
        key in t.groups && Entries(t, t.order, count)[j]
          == (key, (if count then [ShowNat(|RowsOf(key, rows)|)] else []) + Formatted(t.groups[key], t.precision.value))
    {
      TableEntry(t, rows, count, j);
    }
  }

  /** The j-th entry of a state that agrees with the accepted rows: the j-th key first seen, with its count when asked for, then its formatted folds. */
  lemma TableEntry(t: Tally, rows: seq<(string, seq<Dec>)>, count: bool, j: nat)
    requires Inv(t) && t.order == KeysOf(rows) && Counted(t, rows) && j < |t.order|
    ensures var key := KeysOf(rows)[j];
      key in t.groups && |Entries(t, t.order, count)| == |t.order|
      && Entries(t, t.order, count)[j]
        == (key, (if count then [ShowNat(|RowsOf(key, rows)|)] else []) + Formatted(t.groups[key], t.precision.value))
  {
    var key := t.order[j];
    assert key in t.order;
    assert key in t.groups && key in t.counts;
    EntriesAt(t, t.order, count);
    if !count {
      var fmt := Formatted(t.groups[key], t.precision.value);
      assert [] + fmt == fmt;
    }
  }

  // ---------------------------------------------------------------------------
  // agg_all

  /** `[num(tok, strict) for tok in line.split(delim)]`, up to the first token that raises. */
  function LineNums(line: string, delim: char, strict: bool): (r: Result<seq<Dec>, string>)
    ensures r.Ok? ==> |r.value| == |SplitEach(line, Char(delim))|
  {
    Collect(Nums(SplitEach(line, Char(delim)), strict))
  }

  /** Each token read as a number, or the error reading it raises. */
  function Nums(toks: seq<string>, strict: bool): (rs: seq<Result<Dec, string>>)
    ensures |rs| == |toks|
  {
    if toks == [] then [] else Nums(toks[..|toks| - 1], strict) + [Num(toks[|toks| - 1], strict)]
  }

  /** Each token is read with num, in order. */
  lemma {:induction false} NumsAt(toks: seq<string>, strict: bool, j: nat)
    requires j < |toks|
    ensures Nums(toks, strict)[j] == Num(toks[j], strict)
  {
    var init := toks[..|toks| - 1];
    if j < |init| {
      NumsAt(init, strict, j);
    }
  }

  /** Every number agg_all reads, in order, or the error of the first line that raises. */
  function AllNums(lines: seq<string>, delim: char, strict: bool): Result<seq<Dec>, string> {
    if lines == [] then Ok([])
    else
      match AllNums(lines[..|lines| - 1], delim, strict)
      case Err(e) => Err(e)
      case Ok(vs) =>
        match LineNums(lines[|lines| - 1], delim, strict)
        case Err(e) => Err(LineError(|lines|, e))
        case Ok(ws) => Ok(vs + ws)
  }

  /** The running result of agg_all: the first number, then each later one folded in by the operation. */
  function Fold(op: Op, vs: seq<Dec>): (r: Option<Dec>)
    ensures r.None? <==> vs == []
  {
    if vs == [] then None
    else
      FoldStep(op, Fold(op, vs[..|vs| - 1]), vs[|vs| - 1])
  }

  /** One more number: the first number read starts the result; each later one is added, or compared. */
  function FoldStep(op: Op, result: Option<Dec>, value: Dec): (r: Option<Dec>)
    ensures r.Some?
  {
    match result
    case None => Some(value)
    case Some(acc) => Some(Apply(op, acc, value))
  }

  /** `max(precision, prec)` over every number read, starting from 0. */
  function MaxScale(vs: seq<Dec>): nat {
    if vs == [] then 0 else MaxNat(MaxScale(vs[..|vs| - 1]), vs[|vs| - 1].scale)
  }

  /** The result of agg_all: the printed result of its numbers, or the error. */
  function AggText(lines: seq<string>, delim: char, strict: bool, op: Op): Result<string, string> {
    match AllNums(lines, delim, strict)
    case Err(e) => Err(e)
    case Ok(vs) => Ok(AggOf(op, vs))
  }

  /** The folded value, 0 when there is none, printed at the widest precision. */
  function AggOf(op: Op, vs: seq<Dec>): string {
    FoldScale(op, vs);
    Render(if vs == [] then Dec(0, 0) else Fold(op, vs).value, MaxScale(vs))
  }

  /** `num(tok, strict)` for the m-th token of a line. */
  method ReadToken(toks: seq<string>, m: nat, strict: bool) returns (x: Result<Dec, string>)
    requires m < |toks|
    ensures x == Nums(toks, strict)[m]
  {
    NumsAt(toks, strict, m);
    x := Num(toks[m], strict);
  }

  /** One more number folds into the result and may widen the precision. */
  lemma FoldSnoc(op: Op, vs: seq<Dec>, x: Dec)
    ensures Fold(op, vs + [x]) == FoldStep(op, Fold(op, vs), x)
    ensures MaxScale(vs + [x]) == MaxNat(MaxScale(vs), x.scale)
  {
    assert (vs + [x])[..|vs|] == vs;
  }

  /** The folded value never has more digits after its point than the widest number read. */
  lemma {:induction false} FoldScale(op: Op, vs: seq<Dec>)
    ensures Fold(op, vs).Some? ==> Fold(op, vs).value.scale <= MaxScale(vs)
  {
    if vs != [] {
      var init := vs[..|vs| - 1];
      FoldScale(op, init);
      if init != [] {
        ApplyScale(op, Fold(op, init).value, vs[|vs| - 1]);
      }
    }
  }

  /** The precision is the largest scale among the numbers read, and 0 when there are none. */
  lemma {:induction false} MaxScaleWidest(vs: seq<Dec>)
    ensures forall q :: 0 <= q < |vs| ==> vs[q].scale <= MaxScale(vs)
    ensures vs == [] ==> MaxScale(vs) == 0
    ensures vs != [] ==> exists q :: 0 <= q < |vs| && vs[q].scale == MaxScale(vs)
  {
    if vs != [] {
      var init := vs[..|vs| - 1];
      MaxScaleWidest(init);
      assert forall q :: 0 <= q < |init| ==> vs[q] == init[q];
      if init != [] && MaxScale(vs) == MaxScale(init) {
        var q :| 0 <= q < |init| && init[q].scale == MaxScale(init);
        assert vs[q].scale == MaxScale(vs);
      } else {
        assert vs[|vs| - 1].scale == MaxScale(vs);
      }
    }
  }

  /** The numbers as a one-column table, so that a flat fold is a column fold. */
  function Column(vs: seq<Dec>): (rs: seq<seq<Dec>>)
    ensures |rs| == |vs| && forall q :: 0 <= q < |vs| ==> rs[q] == [vs[q]]
  {
    seq(|vs|, q requires 0 <= q < |vs| => [vs[q]])
  }

  /** The folded value is the exact sum, or the minimum or maximum, of the numbers read, attained by one of them. */
  lemma {:induction false} FoldFolds(op: Op, vs: seq<Dec>)
    requires vs != []
    ensures Folded(Fold(op, vs).value, Column(vs), 0, op)
  {
    var init := vs[..|vs| - 1];
    var x := vs[|vs| - 1];
    assert Column(vs) == Column(init) + [[x]];
    if init == [] {
      assert Column(vs) == [[x]];
      assert Column(vs)[..0] == [];
    } else {
      FoldFolds(op, init);
      FoldedStep(Fold(op, init).value, Column(init), 0, op, [x]);
    }
  }

  /** Outside strict mode agg_all reads every token of every line. */
  lemma {:induction false} AllNumsLenient(lines: seq<string>, delim: char)
    ensures AllNums(lines, delim, false).Ok?
  {
    if lines != [] {
      AllNumsLenient(lines[..|lines| - 1], delim);
      var toks := SplitEach(lines[|lines| - 1], Char(delim));
      forall j | 0 <= j < |toks|
        ensures Nums(toks, false)[j].Ok?
      {
        NumsAt(toks, false, j);
      }
      CollectItems(Nums(toks, false));
    }
  }

  /** agg_all's printed result reads back as the folded value (0 without numbers), at the widest precision. */
  lemma AggReads(op: Op, vs: seq<Dec>)
    ensures var n := ParseDecimal(AggOf(op, vs));
      n.Some? && n.value.value.scale == MaxScale(vs)
      && Value(n.value.value) == if vs == [] then 0.0 else Value(Fold(op, vs).value)
  {
    FoldScale(op, vs);
    RenderParses(if vs == [] then Dec(0, 0) else Fold(op, vs).value, MaxScale(vs));
  }

  lemma AllNumsNext(lines: seq<string>, n: nat, delim: char, strict: bool)
    requires n < |lines|
    ensures AllNums(lines[..n + 1], delim, strict) ==
      match AllNums(lines[..n], delim, strict)
      case Err(e) => Err(e)
      case Ok(vs) =>
        match LineNums(lines[n], delim, strict)
        case Err(e) => Err(LineError(n + 1, e))
        case Ok(ws) => Ok(vs + ws)
  {
    assert lines[..n + 1][..n] == lines[..n];
  }

  /** A line raises only in strict mode, at its first token that is not a numeral, naming that token. */
  lemma LineNumsRaises(line: string, delim: char, strict: bool) returns (j: nat)
    requires LineNums(line, delim, strict).Err?
    ensures strict && j < |SplitEach(line, Char(delim))|
    ensures var toks := SplitEach(line, Char(delim));
      ParseDecimal(toks[j]).None? && LineNums(line, delim, strict).error == CannotConvert(toks[j])
      && forall j' :: 0 <= j' < j ==> ParseDecimal(toks[j']).Some?
  {
    var toks := SplitEach(line, Char(delim));
    CollectItems(Nums(toks, strict));
    j :| 0 <= j < |toks| && Nums(toks, strict)[j] == Err(LineNums(line, delim, strict).error)
      && forall j' :: 0 <= j' < j ==> Nums(toks, strict)[j'].Ok?;
    NumsAt(toks, strict, j);
    NumStrictFails(toks[j]);
    forall j' | 0 <= j' < j
      ensures ParseDecimal(toks[j']).Some?
    {
      NumsAt(toks, strict, j');
      NumStrictFails(toks[j']);
    }
  }

  /** A line that raises ends agg_all with its line number and the error's text. */
  lemma AllNumsStops(lines: seq<string>, n: nat, delim: char, strict: bool)
    requires n < |lines| && AllNums(lines[..n], delim, strict).Ok? && LineNums(lines[n], delim, strict).Err?
    ensures AllNums(lines, delim, strict) == Err(LineError(n + 1, LineNums(lines[n], delim, strict).error))
  {
    AllNumsNext(lines, n, delim, strict);
    AllNumsErrPersists(lines, n + 1, delim, strict);
  }

  /** Once agg_all has raised, later lines change nothing. */
  lemma {:induction false} AllNumsErrPersists(lines: seq<string>, m: nat, delim: char, strict: bool)
    requires m <= |lines| && AllNums(lines[..m], delim, strict).Err?
    ensures AllNums(lines, delim, strict) == AllNums(lines[..m], delim, strict)
    decreases |lines| - m
  {
    if m == |lines| {
      assert lines[..m] == lines;
    } else {
      AllNumsNext(lines, m, delim, strict);
      AllNumsErrPersists(lines, m + 1, delim, strict);
    }
  }

  lemma CollectNext<T>(rs: seq<Result<T, string>>, m: nat)
    requires m < |rs|
    ensures Collect(rs[..m + 1]) ==
      match Collect(rs[..m])
      case Err(e) => Err(e)
      case Ok(init) =>
        match rs[m]
        case Err(e) => Err(e)
        case Ok(v) => Ok(init + [v])
  {
    assert rs[..m + 1][..m] == rs[..m];
  }

  /** An item that reads extends a list built item by item. */
  lemma CollectOk<T>(rs: seq<Result<T, string>>, m: nat, init: seq<T>, v: T, next: nat)
    requires m < |rs| && Collect(rs[..m]) == Ok(init) && rs[m] == Ok(v) && next == m + 1
    ensures Collect(rs[..next]) == Ok(init + [v])
  {
    CollectNext(rs, m);
  }

  /** The first item that fails is the failure of the whole list. */
  lemma CollectFails<T>(rs: seq<Result<T, string>>, m: nat, init: seq<T>)
    requires m < |rs| && Collect(rs[..m]) == Ok(init) && rs[m].Err?
    ensures Collect(rs) == Err(rs[m].error)
  {
    CollectNext(rs, m);
    CollectErrPersists(rs, m + 1);
  }

  /** Once a list built item by item has failed, later items change nothing. */
  lemma {:induction false} CollectErrPersists<T>(rs: seq<Result<T, string>>, m: nat)
    requires m <= |rs| && Collect(rs[..m]).Err?
    ensures Collect(rs) == Collect(rs[..m])
    decreases |rs| - m
  {
    if m == |rs| {
      assert rs[..m] == rs;
    } else {
      assert rs[..m + 1][..m] == rs[..m];
      CollectErrPersists(rs, m + 1);
    }
  }

  /**
   * agg_all: folds every number of every line into one result with the operation,
   * tracking the widest precision, and prints the result at that precision.
   */
  method AggAll(lines: seq<string>, delim: char, strict: bool, op: Op) returns (r: Result<string, string>)
    ensures r == AggText(lines, delim, strict, op)
  {
    var result: Option<Dec> := None;
    var precision: nat := 0;
    ghost var vs: seq<Dec> := [];
    var n := 0;
    while n < |lines|
      invariant 0 <= n <= |lines|
      invariant AllNums(lines[..n], delim, strict) == Ok(vs)
      invariant result == Fold(op, vs) && precision == MaxScale(vs)
    {
      // `line.split(delim)` always has a field, so the source's guard for an empty split never fires.
      var toks := SplitEach(lines[n], Char(delim));
      var out := FoldTokens(toks, strict, op, result, precision);
      ghost var ws := AggLineStep(lines, n, delim, strict, op, vs, out);
      if out.Err? {
        return Err(LineError(n + 1, out.error));
      }
      vs := vs + ws;
      result, precision := out.value.0, out.value.1;
      n := n + 1;
    }
    assert lines[..n] == lines;
    FoldScale(op, vs);
    r := Ok(Render(if result.None? then Dec(0, 0) else result.value, precision));
    assert r == Ok(AggOf(op, vs));
  }

  /** What one line's token loop means for agg_all: it raises for the whole input, or extends the numbers read. */
  lemma AggLineStep(lines: seq<string>, n: nat, delim: char, strict: bool, op: Op, vs: seq<Dec>,
                    out: Result<(Option<Dec>, nat), string>) returns (ws: seq<Dec>)
    requires n < |lines| && AllNums(lines[..n], delim, strict) == Ok(vs)
    requires out == CarryOn(op, Fold(op, vs), MaxScale(vs), LineNums(lines[n], delim, strict))
    ensures out.Err? ==> AllNums(lines, delim, strict) == Err(LineError(n + 1, out.error))
    ensures out.Ok? ==>
      AllNums(lines[..n + 1], delim, strict) == Ok(vs + ws) && out.value == (Fold(op, vs + ws), MaxScale(vs + ws))
  {
    if out.Err? {
      AllNumsStops(lines, n, delim, strict);
      ws := [];
    } else {
      AllNumsNext(lines, n, delim, strict);
      ws := LineNums(lines[n], delim, strict).value;
      FoldAppend(op, vs, ws);
    }
  }

  /** The fold carried on from a running result over more numbers. */
  function FoldFrom(op: Op, result: Option<Dec>, ws: seq<Dec>): Option<Dec> {
    if ws == [] then result else FoldStep(op, FoldFrom(op, result, ws[..|ws| - 1]), ws[|ws| - 1])
  }

  /** The widest precision carried on from a running one over more numbers. */
  function ScaleFrom(precision: nat, ws: seq<Dec>): nat {
    if ws == [] then precision else MaxNat(ScaleFrom(precision, ws[..|ws| - 1]), ws[|ws| - 1].scale)
  }

  /** The running result and precision carried on over one line's numbers, or the line's error. */
  function CarryOn(op: Op, result: Option<Dec>, precision: nat, line: Result<seq<Dec>, string>)
    : Result<(Option<Dec>, nat), string>
  {
    match line
    case Err(e) => Err(e)
    case Ok(ws) => Ok((FoldFrom(op, result, ws), ScaleFrom(precision, ws)))
  }

  /** Carrying the fold on over one more number folds that number in. */
  lemma FoldFromSnoc(op: Op, result: Option<Dec>, precision: nat, ws: seq<Dec>, x: Dec, next: seq<Dec>)
    requires next == ws + [x]
    ensures FoldFrom(op, result, next) == FoldStep(op, FoldFrom(op, result, ws), x)
    ensures ScaleFrom(precision, next) == MaxNat(ScaleFrom(precision, ws), x.scale)
  {
    assert next[..|ws|] == ws;
  }

  /** Folding numbers read one line after another is one fold over all of them: the running result and precision carry over. */
  lemma {:induction false} FoldAppend(op: Op, vs: seq<Dec>, ws: seq<Dec>)
    ensures Fold(op, vs + ws) == FoldFrom(op, Fold(op, vs), ws)
    ensures MaxScale(vs + ws) == ScaleFrom(MaxScale(vs), ws)
  {
    if ws == [] {
      assert vs + ws == vs;
    } else {
      var init, x := ws[..|ws| - 1], ws[|ws| - 1];
      FoldAppend(op, vs, init);
      assert vs + ws == (vs + init) + [x];
      FoldSnoc(op, vs + init, x);
    }
  }

  /** The inner loop of agg_all over one line's tokens: each is read with num and folded into the running result. */
  method FoldTokens(toks: seq<string>, strict: bool, op: Op, result0: Option<Dec>, precision0: nat)
    returns (out: Result<(Option<Dec>, nat), string>)
    ensures out == CarryOn(op, result0, precision0, Collect(Nums(toks, strict)))
  {
    var result, precision := result0, precision0;
    ghost var rs := Nums(toks, strict);
    ghost var ws: seq<Dec> := [];
    var m := 0;
    assert rs[..m] == [];
    while m < |toks|
      invariant 0 <= m <= |toks|
      invariant Collect(rs[..m]) == Ok(ws)
      invariant result == FoldFrom(op, result0, ws) && precision == ScaleFrom(precision0, ws)
    {
      var x := ReadToken(toks, m, strict);
      if x.Err? {
        CollectFails(rs, m, ws);
        return Err(x.error);
      }
      var next := m + 1;
      CollectOk(rs, m, ws, x.value, next);
      ghost var more := ws + [x.value];
      FoldFromSnoc(op, result0, precision0, ws, x.value, more);
      result, precision := FoldStep(op, result, x.value), MaxNat(precision, x.value.scale);
      ws := more;
      m := next;
    }
    assert rs[..m] == rs;
    out := Ok((result, precision));
  }

}
