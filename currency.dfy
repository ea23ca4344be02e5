/**
 * Money-shaped tokens such as `$1,234.56`: the regular expressions that decide
 * whether `$` and `,` are stripped before a token is read as a number.
 */
module Currency {
  import opened Text

  /** `\$\d*`: a dollar sign and any number of digits. */
  predicate DollarDigits(m: string) {
    |m| > 0 && m[0] == '$' && AllDigits(m[1..])
  }

  /** `\d{1,3}(,\d{3})+`: one to three digits, then at least one comma and three digits. */
  predicate GroupedDigits(g: string) {
    var groups := SplitEach(g, Char(','));
    |groups| >= 2 && 1 <= |groups[0]| <= 3 && AllDigits(groups[0])
    && forall k :: 1 <= k < |groups| ==> |groups[k]| == 3 && AllDigits(groups[k])
  }

  /** `\$?\d{1,3}(,\d{3})+` */
  predicate Grouped(m: string) {
    GroupedDigits(if |m| > 0 && m[0] == '$' then m[1..] else m)
  }

  /** `(\.\d+)?` */
  predicate OptFraction(f: string) {
    f == [] || (|f| >= 2 && f[0] == '.' && AllDigits(f[1..]))
  }

  /**
   * The whole token matches `(-?\$\d*|\$?\d{1,3}(,\d{3})+)(\.\d+)?` when `signedGroups`
   * is false, and `-?(\$\d*|\$?\d{1,3}(,\d{3})+)(\.\d+)?` when it is true. Neither
   * alternative holds a point, so the optional fraction starts at the first point.
   */
  predicate MoneyShaped(s: string, signedGroups: bool) {
    var negative := |s| > 0 && s[0] == '-';
    var t := if negative then s[1..] else s;
    var i := FirstSep(t, Char('.'));
    OptFraction(t[i..]) && (DollarDigits(t[..i]) || ((!negative || signedGroups) && Grouped(t[..i])))
  }

  predicate IsMark(c: char) {
    c == '$' || c == ','
  }

  /** `s.replace("$", "").replace(",", "")` */
  function DropMarks(s: string): (r: string)
    ensures forall k :: 0 <= k < |r| ==> !IsMark(r[k])
    ensures |r| <= |s|
    ensures |s| == 1 ==> r == (if IsMark(s[0]) then [] else s)
  {
    if s == [] then []
    else if IsMark(s[0]) then DropMarks(s[1..])
    else [s[0]] + DropMarks(s[1..])
  }

  /** Text without the marks is left as it is. */
  lemma {:induction false} DropMarksFree(s: string)
    requires forall k :: 0 <= k < |s| ==> !IsMark(s[k])
    ensures DropMarks(s) == s
  {
    if s != [] {
      DropMarksFree(s[1..]);
      assert [s[0]] + s[1..] == s;
    }
  }

  /**
   * Dropping the marks works piece by piece: with the one-character case, this says every
   * other character is kept, in order, and nothing is added.
   */
  lemma {:induction false} DropMarksAppend(a: string, b: string)
    ensures DropMarks(a + b) == DropMarks(a) + DropMarks(b)
  {
    if a == [] {
      assert a + b == b;
    } else {
      assert (a + b)[0] == a[0];
      assert (a + b)[1..] == a[1..] + b;
      DropMarksAppend(a[1..], b);
    }
  }

  /** `$d,ddd`: a dollar sign, one to three digits, a comma and three digits. */
  function MoneyWhole(lead: string, group: string): string {
    ['$'] + (lead + ([','] + group))
  }

  /** `-?$d,ddd.f`: an optional minus, the whole part, a point and the fraction digits. */
  function GroupedMoney(sign: string, lead: string, group: string, frac: string): string {
    sign + (MoneyWhole(lead, group) + (['.'] + frac))
  }

  predicate GroupedParts(sign: string, lead: string, group: string, frac: string) {
    (sign == "" || sign == "-") && 1 <= |lead| <= 3 && AllDigits(lead) && |group| == 3 && AllDigits(group)
    && |frac| > 0 && AllDigits(frac)
  }

  /** Such a token is money-shaped for num, and for remove_comma when it has no minus. */
  lemma GroupedMoneyShaped(sign: string, lead: string, group: string, frac: string)
    requires GroupedParts(sign, lead, group, frac)
    ensures MoneyShaped(GroupedMoney(sign, lead, group, frac), true)
    ensures sign == "" ==> MoneyShaped(GroupedMoney(sign, lead, group, frac), false)
  {
    var m := MoneyWhole(lead, group);
    var body := m + (['.'] + frac);
    var s := GroupedMoney(sign, lead, group, frac);
    SignedBody(sign, body);
    MoneyWholeShaped(lead, group);
    FractionAfter(m, frac);
  }

  /** The minus, when there is one, is the sign MoneyShaped looks for; the body starts with `$`. */
  lemma SignedBody(sign: string, body: string)
    requires (sign == "" || sign == "-") && |body| > 0 && body[0] == '$'
    ensures var s := sign + body; (|s| > 0 && s[0] == '-') == (sign == "-")
    ensures var s := sign + body; (if |s| > 0 && s[0] == '-' then s[1..] else s) == body
  {
    if sign == "-" {
      assert (sign + body)[1..] == body;
    }
  }

  /** `$d,ddd` holds no point and matches `\$?\d{1,3}(,\d{3})+`. */
  lemma MoneyWholeShaped(lead: string, group: string)
    requires 1 <= |lead| <= 3 && AllDigits(lead) && |group| == 3 && AllDigits(group)
    ensures SepFree(MoneyWhole(lead, group), Char('.'))
    ensures Grouped(MoneyWhole(lead, group))
  {
    MoneyWholeGroups(lead, group);
  }

  /** `$d,d...` with any digits around its comma: no point, and the comma splits it into the two runs of digits. */
  lemma MoneyWholeGroups(lead: string, group: string)
    requires AllDigits(lead) && AllDigits(group)
    ensures var m := MoneyWhole(lead, group);
      SepFree(m, Char('.')) && |m| > 0 && m[0] == '$' && m[1..] == lead + ([','] + group)
      && SplitEach(m[1..], Char(',')) == [lead, group]
  {
    var g := lead + ([','] + group);
    var m := ['$'] + g;
    assert SepFree(g, Char('.')) by {
      assert forall k :: |lead| < k < |g| ==> g[k] == group[k - |lead| - 1];
    }
    assert SepFree(m, Char('.')) by {
      assert forall k :: 1 <= k < |m| ==> m[k] == g[k - 1];
    }
    assert SplitEach(g, Char(',')) == [lead, group] by {
      assert Join([lead, group], [',']) == g;
      JoinSplitEach([lead, group], ',');
    }
    assert m[0] == '$' && m[1..] == g;
  }

  /** With a comma group of other than three digits, `$d,d...f` is not money-shaped. */
  lemma OddGroupNotMoney(lead: string, group: string, frac: string)
    requires 1 <= |lead| <= 3 && AllDigits(lead) && |group| != 3 && AllDigits(group)
    requires |frac| > 0 && AllDigits(frac)
    ensures var s := GroupedMoney("", lead, group, frac);
      !MoneyShaped(s, true) && s[0] == '$' && s[..FirstSep(s, Char('.'))] == MoneyWhole(lead, group)
  {
    var m := MoneyWhole(lead, group);
    var s := GroupedMoney("", lead, group, frac);
    assert s == m + (['.'] + frac);
    assert FirstSep(s, Char('.')) == |m| && s[..|m|] == m by {
      MoneyWholeGroups(lead, group);
      FractionAfter(m, frac);
    }
    assert !DollarDigits(m) && !Grouped(m) by {
      OddWhole(lead, group);
    }
    assert s[0] == '$';
    UnsignedWholeNotMoney(s, m);
  }

  /** An unsigned token whose part before the first point matches neither alternative is not money. */
  lemma UnsignedWholeNotMoney(s: string, w: string)
    requires |s| > 0 && s[0] != '-' && s[..FirstSep(s, Char('.'))] == w
    requires !DollarDigits(w) && !Grouped(w)
    ensures !MoneyShaped(s, true)
  {
  }

  /** `$d,d...` with a comma group of other than three digits matches neither money alternative. */
  lemma OddWhole(lead: string, group: string)
    requires AllDigits(lead) && AllDigits(group) && |group| != 3
    ensures !DollarDigits(MoneyWhole(lead, group)) && !Grouped(MoneyWhole(lead, group))
  {
    var m := MoneyWhole(lead, group);
    MoneyWholeGroups(lead, group);
    assert m[1..][|lead|] == ',';
    assert SplitEach(m[1..], Char(','))[1] == group;
  }

  /** The first point of `m.f` is the one after m, and `.f` is a fraction. */
  lemma FractionAfter(m: string, frac: string)
    requires SepFree(m, Char('.')) && |frac| > 0 && AllDigits(frac)
    ensures var body := m + (['.'] + frac);
      FirstSep(body, Char('.')) == |m| && body[..|m|] == m && OptFraction(body[|m|..])
  {
    var body := m + (['.'] + frac);
    assert body == m + ['.'] + frac;
    FirstSepAfter(m, '.', frac, Char('.'));
    assert body[..|m|] == m;
    assert body[|m|..] == ['.'] + frac;
    assert (['.'] + frac)[1..] == frac;
  }

  /** Cleaning such a token drops its dollar sign and its comma and keeps the rest in order. */
  lemma GroupedMoneyDropped(sign: string, lead: string, group: string, frac: string)
    requires GroupedParts(sign, lead, group, frac)
    ensures DropMarks(GroupedMoney(sign, lead, group, frac)) == sign + (lead + (group + (['.'] + frac)))
  {
    var point := ['.'] + frac;
    assert DropMarks(point) == point by {
      assert forall k :: 1 <= k < |point| ==> point[k] == frac[k - 1];
      DropMarksFree(point);
    }
    var kept := group + point;
    assert DropMarks(kept) == kept by {
      DropMarksKeep(group, point);
    }
    var afterComma := [','] + kept;
    assert DropMarks(afterComma) == kept by {
      DropMarksSkip(',', kept);
    }
    var withLead := lead + afterComma;
    assert DropMarks(withLead) == lead + kept by {
      DropMarksKeep(lead, afterComma);
    }
    var token := ['$'] + withLead;
    assert DropMarks(token) == lead + kept by {
      DropMarksSkip('$', withLead);
    }
    assert MoneyWhole(lead, group) + point == token;
    assert DropMarks(sign + token) == sign + (lead + kept) by {
      DropMarksKeep(sign, token);
    }
  }

  /** A mark in front is dropped. */
  lemma DropMarksSkip(c: char, b: string)
    requires IsMark(c)
    ensures DropMarks([c] + b) == DropMarks(b)
  {
    assert ([c] + b)[1..] == b;
  }

  /** Text without marks in front is kept as it is. */
  lemma DropMarksKeep(a: string, b: string)
    requires forall k :: 0 <= k < |a| ==> !IsMark(a[k])
    ensures DropMarks(a + b) == a + DropMarks(b)
  {
    DropMarksAppend(a, b);
    DropMarksFree(a);
  }

  /** Every money-shaped token holds a dollar sign or a comma. */
  lemma MoneyShapedHasMark(s: string, signedGroups: bool)
    requires MoneyShaped(s, signedGroups)
    ensures exists k :: 0 <= k < |s| && IsMark(s[k])
  {
    var negative := |s| > 0 && s[0] == '-';
    var off := if negative then 1 else 0;
    var t := s[off..];
    var m := t[..FirstSep(t, Char('.'))];
    assert forall j :: 0 <= j < |m| ==> m[j] == s[off + j];
    if DollarDigits(m) {
      assert IsMark(s[off]);
    } else {
      var dollar := |m| > 0 && m[0] == '$';
      var g := if dollar then m[1..] else m;
      if dollar {
        assert IsMark(s[off]);
      } else {
        SplitEachCount(g, Char(','));
        var j := SomeSep(g, Char(','));
        assert IsMark(s[off + j]);
      }
    }
  }

  /** A position of a separator, when the text holds any. */
  lemma {:induction false} SomeSep(s: string, sep: Sep) returns (j: nat)
    requires CountSeps(s, sep) > 0
    ensures j < |s| && IsSep(sep, s[j])
  {
    if IsSep(sep, s[0]) {
      j := 0;
    } else {
      var k := SomeSep(s[1..], sep);
      j := k + 1;
    }
  }
}
