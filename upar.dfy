/**
 * The paragraph reflower: text is cut into lines at `\n`, the lines into paragraphs of
 * words at blank lines, and each paragraph is packed greedily into indented lines of at
 * most `columns - indent` characters, with one empty line between paragraphs.
 */
module Upar {
  import opened Wrappers
  import opened Text

  // ---------------------------------------------------------------------------
  // get_indent

  /** The leading whitespace of the first line that is not blank, if any. */
  function FirstIndent(lines: seq<string>): (r: Option<int>)
    ensures r.Some? ==> r.value >= 0
  {
    if lines == [] then None
    else if !IsBlank(lines[0]) then Some(LeadingSpace(lines[0]))
    else FirstIndent(lines[1..])
  }

  /** The first line that is not blank decides the indent. */
  lemma {:induction false} FirstIndentAt(lines: seq<string>, i: nat)
    requires i < |lines| && !IsBlank(lines[i])
    requires forall k :: 0 <= k < i ==> IsBlank(lines[k])
    ensures FirstIndent(lines) == Some(LeadingSpace(lines[i]))
  {
    if i > 0 {
      assert IsBlank(lines[0]);
      FirstIndentAt(lines[1..], i - 1);
    }
  }

  /** There is no indent to derive exactly when every line is blank. */
  lemma {:induction false} FirstIndentNone(lines: seq<string>)
    ensures FirstIndent(lines).None? <==> forall k :: 0 <= k < |lines| ==> IsBlank(lines[k])
  {
    if lines != [] {
      FirstIndentNone(lines[1..]);
      assert forall k :: 1 <= k < |lines| ==> lines[k] == lines[1..][k - 1];
    }
  }

  /**
   * get_indent: an explicit indent is kept; otherwise the length of the leading
   * whitespace of the first line that is not blank, or none when every line is blank.
   */
  method GetIndent(indent: Option<int>, lines: seq<string>) returns (r: Option<int>)
    ensures indent.Some? ==> r == indent
    ensures indent.None? ==> r == FirstIndent(lines)
  {
    r := indent;
    if r.None? {
      var i := 0;
      while i < |lines|
        invariant 0 <= i <= |lines|
        invariant forall k :: 0 <= k < i ==> IsBlank(lines[k])
      {
        if !IsBlank(lines[i]) {
          FirstIndentAt(lines, i);
          r := Some(LeadingSpace(lines[i]));
          return;
        }
        i := i + 1;
      }
      FirstIndentNone(lines);
    }
  }

  // ---------------------------------------------------------------------------
  // get_paragraphs

  /** The words of a sequence of word lists, in order. */
  function Flatten(xss: seq<seq<string>>): seq<string> {
    if xss == [] then [] else Flatten(xss[..|xss| - 1]) + xss[|xss| - 1]
  }

  lemma FlattenSnoc(xss: seq<seq<string>>, xs: seq<string>)
    ensures Flatten(xss + [xs]) == Flatten(xss) + xs
  {
    assert (xss + [xs])[..|xss|] == xss;
  }

  lemma {:induction false} FlattenAppend(a: seq<seq<string>>, b: seq<seq<string>>)
    ensures Flatten(a + b) == Flatten(a) + Flatten(b)
  {
    if b == [] {
      assert a + b == a;
    } else {
      var init := b[..|b| - 1];
      FlattenAppend(a, init);
      assert a + b == (a + init) + [b[|b| - 1]];
      FlattenSnoc(a + init, b[|b| - 1]);
      assert Flatten(b) == Flatten(init) + b[|b| - 1];
    }
  }

  /** The finished paragraphs and the one being collected. */
  datatype Gathered = Gathered(paras: seq<seq<string>>, para: seq<string>)

  const NoParagraphs := Gathered([], [])

  /** One line of get_paragraphs: its words join the paragraph, or a blank line ends a non-empty paragraph. */
  function GatherLine(g: Gathered, line: string): Gathered {
    if !IsBlank(line) then Gathered(g.paras, g.para + Words(line))
    else if g.para != [] then Gathered(g.paras + [g.para], [])
    else g
  }

  function GatherFrom(g: Gathered, lines: seq<string>): Gathered {
    if lines == [] then g else GatherLine(GatherFrom(g, lines[..|lines| - 1]), lines[|lines| - 1])
  }

  /** The paragraphs, with the last one added when it is not empty. */
  function Close(g: Gathered): seq<seq<string>> {
    if g.para != [] then g.paras + [g.para] else g.paras
  }

  /** The result of get_paragraphs. */
  function Paragraphs(lines: seq<string>): seq<seq<string>> {
    Close(GatherFrom(NoParagraphs, lines))
  }

  /** Every paragraph is non-empty and every word is a run of non-whitespace characters. */
  predicate WordLists(xss: seq<seq<string>>) {
    forall i :: 0 <= i < |xss| ==> xss[i] != [] && forall k :: 0 <= k < |xss[i]| ==> IsWord(xss[i][k])
  }

  /**
   * get_paragraphs: collects the words of consecutive lines that are not blank into
   * one paragraph, and starts a new one after a blank line.
   */
  method GetParagraphs(lines: seq<string>) returns (paras: seq<seq<string>>)
    ensures paras == Paragraphs(lines)
  {
    paras := [];
    var para: seq<string> := [];
    var n := 0;
    while n < |lines|
      invariant 0 <= n <= |lines|
      invariant GatherFrom(NoParagraphs, lines[..n]) == Gathered(paras, para)
    {
      assert lines[..n + 1][..n] == lines[..n];
      var line := lines[n];
      if !IsBlank(line) {
        var words := Words(line);
        var w := 0;
        while w < |words|
          invariant 0 <= w <= |words|
          invariant para == GatherFrom(NoParagraphs, lines[..n]).para + words[..w]
        {
          assert words[..w + 1] == words[..w] + [words[w]];
          para := para + [words[w]];
          w := w + 1;
        }
        assert words[..w] == words;
      } else if para != [] {
        paras := paras + [para];
        para := [];
      }
      n := n + 1;
    }
    assert lines[..n] == lines;
    if para != [] {
      paras := paras + [para];
    }
  }

  /** What get_paragraphs has seen so far: its paragraphs followed by the open one hold every word, in order. */
  lemma {:induction false} GatherWords(lines: seq<string>)
    ensures var g := GatherFrom(NoParagraphs, lines);
      Flatten(g.paras) + g.para == LineWords(lines)
  {
    if lines != [] {
      var init, line := lines[..|lines| - 1], lines[|lines| - 1];
      GatherWords(init);
      var g := GatherFrom(NoParagraphs, init);
      assert GatherFrom(NoParagraphs, lines) == GatherLine(g, line);
      assert LineWords(lines) == LineWords(init) + Words(line);
      var words := Flatten(g.paras);
      if !IsBlank(line) {
        assert words + (g.para + Words(line)) == (words + g.para) + Words(line);
      } else {
        WordsEmptyIffBlank(line);
        if g.para != [] {
          FlattenSnoc(g.paras, g.para);
        }
      }
    }
  }

  /** Every finished paragraph is non-empty, and every word collected is a word. */
  lemma {:induction false} GatherShapes(lines: seq<string>)
    ensures var g := GatherFrom(NoParagraphs, lines);
      WordLists(g.paras) && forall k :: 0 <= k < |g.para| ==> IsWord(g.para[k])
  {
    if lines != [] {
      var init, line := lines[..|lines| - 1], lines[|lines| - 1];
      GatherShapes(init);
      var g := GatherFrom(NoParagraphs, init);
      if IsBlank(line) && g.para != [] {
        var ps := g.paras + [g.para];
        assert forall i :: 0 <= i < |g.paras| ==> ps[i] == g.paras[i];
        assert ps[|g.paras|] == g.para;
      }
    }
  }

  /** get_paragraphs keeps every word in order, none split and none dropped. */
  lemma ParagraphsWords(lines: seq<string>)
    ensures Flatten(Paragraphs(lines)) == LineWords(lines)
  {
    var g := GatherFrom(NoParagraphs, lines);
    GatherWords(lines);
    if g.para != [] {
      FlattenSnoc(g.paras, g.para);
    } else {
      assert Flatten(g.paras) + [] == Flatten(g.paras);
    }
  }

  /** get_paragraphs gives no empty paragraph, and only words. */
  lemma ParagraphsShape(lines: seq<string>)
    ensures WordLists(Paragraphs(lines))
  {
    var g := GatherFrom(NoParagraphs, lines);
    GatherShapes(lines);
    if g.para != [] {
      var ps := g.paras + [g.para];
      assert forall i :: 0 <= i < |g.paras| ==> ps[i] == g.paras[i];
    }
  }

  /** Finished paragraphs before the start are carried along unchanged. */
  lemma {:induction false} GatherShift(before: seq<seq<string>>, lines: seq<string>)
    ensures GatherFrom(Gathered(before, []), lines)
      == Gathered(before + GatherFrom(NoParagraphs, lines).paras, GatherFrom(NoParagraphs, lines).para)
  {
    if lines == [] {
      assert before + [] == before;
    } else {
      var init := lines[..|lines| - 1];
      GatherShift(before, init);
      var g := GatherFrom(NoParagraphs, init);
      assert before + (g.paras + [g.para]) == before + g.paras + [g.para];
    }
  }

  lemma {:induction false} GatherAppend(g: Gathered, a: seq<string>, c: seq<string>)
    ensures GatherFrom(g, a + c) == GatherFrom(GatherFrom(g, a), c)
  {
    if c == [] {
      assert a + c == a;
    } else {
      var init, line := c[..|c| - 1], c[|c| - 1];
      GatherAppend(g, a, init);
      assert (a + c)[..|a + c| - 1] == a + init && (a + c)[|a + c| - 1] == line;
      assert GatherFrom(g, a + c) == GatherLine(GatherFrom(g, a + init), line);
    }
  }

  /** A blank line separates: the paragraphs of the text around it are those of each side. */
  lemma ParagraphsBlankSplit(a: seq<string>, b: string, c: seq<string>)
    requires IsBlank(b)
    ensures Paragraphs(a + [b] + c) == Paragraphs(a) + Paragraphs(c)
  {
    GatherAppend(NoParagraphs, a + [b], c);
    assert (a + [b])[..|a|] == a;
    var g := GatherFrom(NoParagraphs, a + [b]);
    assert g == Gathered(Paragraphs(a), []);
    GatherShift(Paragraphs(a), c);
    var h := GatherFrom(NoParagraphs, c);
    if h.para != [] {
      assert Paragraphs(a) + h.paras + [h.para] == Paragraphs(a) + (h.paras + [h.para]);
    }
  }

  /** Consecutive lines that are not blank make one paragraph of all their words. */
  lemma {:induction false} ParagraphsBlock(lines: seq<string>)
    requires lines != [] && forall k :: 0 <= k < |lines| ==> !IsBlank(lines[k])
    ensures GatherFrom(NoParagraphs, lines) == Gathered([], LineWords(lines))
    ensures LineWords(lines) != [] && Paragraphs(lines) == [LineWords(lines)]
  {
    var init, line := lines[..|lines| - 1], lines[|lines| - 1];
    WordsEmptyIffBlank(line);
    if init != [] {
      ParagraphsBlock(init);
    }
  }

  // ---------------------------------------------------------------------------
  // paragraph

  /** The finished lines of a paragraph, each a list of words, and the line being filled. */
  datatype Packing = Packing(done: seq<seq<string>>, cur: seq<string>)

  const NoLines := Packing([], [])

  /**
   * One word of paragraph: it starts the empty line, or is written alone when it is longer
   * than the line allows; it is appended after a space when that still fits; otherwise the
   * line is written and the word starts the next one.
   */
  function PackWord(p: Packing, word: string, maxlen: int): Packing {
    if p.cur == [] then
      if |word| > maxlen then Packing(p.done + [[word]], []) else Packing(p.done, [word])
    else if |Join(p.cur, " ")| + 1 + |word| > maxlen then Packing(p.done + [p.cur], [word])
    else Packing(p.done, p.cur + [word])
  }

  function PackFrom(p: Packing, words: seq<string>, maxlen: int): Packing {
    if words == [] then p else PackWord(PackFrom(p, words[..|words| - 1], maxlen), words[|words| - 1], maxlen)
  }

  /** The lines of one paragraph, as lists of words: the last line is written when it is not empty. */
  function Pack(words: seq<string>, maxlen: int): seq<seq<string>> {
    Flush(PackFrom(NoLines, words, maxlen))
  }

  /** The lines packed so far: the finished ones, then the one being filled when it holds a word. */
  function Flush(p: Packing): seq<seq<string>> {
    if p.cur != [] then p.done + [p.cur] else p.done
  }

  /** `' ' * indent`, which is empty for a negative indent. */
  function Pad(indent: int): string {
    Spaces(if indent < 0 then 0 else indent)
  }

  /** Each line of words printed after the indent, its words separated by one space. */
  function Print(chunks: seq<seq<string>>, pad: string): (out: seq<string>)
    ensures |out| == |chunks|
    ensures forall i :: 0 <= i < |chunks| ==> out[i] == pad + Join(chunks[i], " ")
  {
    if chunks == [] then [] else Print(chunks[..|chunks| - 1], pad) + [pad + Join(chunks[|chunks| - 1], " ")]
  }

  /** The paragraphs' lines, with one empty line between consecutive paragraphs. */
  function Layout(paras: seq<seq<string>>, pad: string, maxlen: int): seq<string> {
    if paras == [] then []
    else
      var init := paras[..|paras| - 1];
      Layout(init, pad, maxlen) + (if init == [] then [] else [""]) + Print(Pack(paras[|paras| - 1], maxlen), pad)
  }

  /** The lines paragraph yields for `data`. */
  function Reflow(data: string, columns: int, indent: Option<int>): seq<string> {
    var lines := SplitEach(data, Char('\n'));
    var n := Indent(lines, indent);
    Layout(Paragraphs(lines), Pad(n), TextWidth(columns, n))
  }

  /** `indent or 0` once get_indent has run: the given indent, else that of the first line with words. */
  function Indent(lines: seq<string>, indent: Option<int>): int {
    var ind := if indent.Some? then indent else FirstIndent(lines);
    if ind.Some? then ind.value else 0
  }

  /** `maxlen`: the room the text has once the indent is set aside. */
  function TextWidth(columns: int, indent: int): int {
    columns - indent
  }

  /**
   * paragraph: splits the text into lines, derives the indent, collects the paragraphs
   * and yields each paragraph's packed lines, with an empty line before every paragraph
   * but the first.
   */
  method Paragraph(data: string, columns: int, indent: Option<int>) returns (out: seq<string>)
    ensures out == Reflow(data, columns, indent)
  {
    var lines := SplitEach(data, Char('\n'));
    var ind := GetIndent(indent, lines);
    var paras := GetParagraphs(lines);
    ParagraphsShape(lines);
    // `indent or 0`; the indent is missing only when there are no words to print.
    var n := if ind.Some? then ind.value else 0;
    assert n == Indent(lines, indent);
    out := PrintParagraphs(paras, TextWidth(columns, n), Pad(n));
  }

  /** The paragraph loop of paragraph: an empty line before every paragraph but the first, then its lines. */
  method PrintParagraphs(paras: seq<seq<string>>, maxlen: int, pad: string) returns (out: seq<string>)
    requires WordLists(paras)
    ensures out == Layout(paras, pad, maxlen)
  {
    out := [];
    var k := 0;
    while k < |paras|
      invariant 0 <= k <= |paras|
      invariant out == Layout(paras[..k], pad, maxlen)
    {
      LayoutNext(paras, k, pad, maxlen);
      if k > 0 {
        out := out + [""];
      }
      var printed := PackLines(paras[k], maxlen, pad);
      out := out + printed;
      k := k + 1;
    }
    assert paras[..k] == paras;
  }

  /** The word loop of paragraph for one paragraph, with `line` reset to empty after it. */
  method PackLines(para: seq<string>, maxlen: int, pad: string) returns (out: seq<string>)
    requires forall k :: 0 <= k < |para| ==> IsWord(para[k])
    ensures out == Print(Pack(para, maxlen), pad)
  {
    out := [];
    var line := "";
    var w := 0;
    while w < |para|
      invariant 0 <= w <= |para|
      invariant var p := PackFrom(NoLines, para[..w], maxlen);
        out == Print(p.done, pad) && line == Join(p.cur, " ")
        && forall k :: 0 <= k < |p.cur| ==> IsWord(p.cur[k])
    {
      ghost var p := PackFrom(NoLines, para[..w], maxlen);
      assert para[..w + 1][..w] == para[..w];
      var word := para[w];
      JoinEmpty(p.cur);
      if line == "" {
        if |word| > maxlen {
          PrintSnoc(p.done, [word], pad);
          out := out + [pad + word];
        } else {
          line := word;
        }
      } else if |line + " " + word| > maxlen {
        PrintSnoc(p.done, p.cur, pad);
        out := out + [pad + line];
        line := word;
      } else {
        JoinSnoc(p.cur, word);
        line := line + " " + word;
      }
      w := w + 1;
    }
    assert para[..w] == para;
    ghost var p := PackFrom(NoLines, para, maxlen);
    JoinEmpty(p.cur);
    if line != "" {
      PrintSnoc(p.done, p.cur, pad);
      out := out + [pad + line];
    }
  }

  lemma LayoutNext(paras: seq<seq<string>>, k: nat, pad: string, maxlen: int)
    requires k < |paras|
    ensures Layout(paras[..k + 1], pad, maxlen)
      == Layout(paras[..k], pad, maxlen) + (if k > 0 then [""] else []) + Print(Pack(paras[k], maxlen), pad)
  {
    assert paras[..k + 1][..k] == paras[..k];
  }

  lemma PrintSnoc(chunks: seq<seq<string>>, chunk: seq<string>, pad: string)
    ensures Print(chunks + [chunk], pad) == Print(chunks, pad) + [pad + Join(chunk, " ")]
  {
    assert (chunks + [chunk])[..|chunks|] == chunks;
  }

  /** Joining words with a space is empty only when there are no words. */
  lemma JoinEmpty(ws: seq<string>)
    requires forall k :: 0 <= k < |ws| ==> IsWord(ws[k])
    ensures Join(ws, " ") == "" <==> ws == []
  {
    if |ws| > 1 {
      assert |Join(ws, " ")| >= |ws[0]|;
    }
  }

  /** Appending a word to a non-empty line adds a space and the word. */
  lemma {:induction false} JoinSnoc(ws: seq<string>, w: string)
    requires ws != []
    ensures Join(ws + [w], " ") == Join(ws, " ") + " " + w
  {
    if |ws| > 1 {
      JoinSnoc(ws[1..], w);
      assert (ws + [w])[1..] == ws[1..] + [w];
    }
  }

  // ---------------------------------------------------------------------------
  // What paragraph promises

  /** A line of words holds at least one word, and is longer than the room only when it is a single word. */
  predicate Fits(chunk: seq<string>, maxlen: int) {
    chunk != [] && (|Join(chunk, " ")| > maxlen ==> |chunk| == 1)
  }

  /** Every line but the first was begun only because its first word did not fit after the line before. */
  predicate Greedy(chunks: seq<seq<string>>, maxlen: int) {
    forall i :: 0 < i < |chunks| ==> chunks[i] != [] && |Join(chunks[i - 1], " ")| + 1 + |chunks[i][0]| > maxlen
  }

  /** The laws of packed lines: lists of words, each fitting, packed greedily. */
  predicate Packed(chunks: seq<seq<string>>, maxlen: int) {
    WordLists(chunks) && (forall i :: 0 <= i < |chunks| ==> Fits(chunks[i], maxlen)) && Greedy(chunks, maxlen)
  }

  /** What holds of the lines packed so far, with the fact that an empty current line follows a line that overflowed. */
  predicate PackInv(p: Packing, maxlen: int) {
    Packed(Flush(p), maxlen) && (p.cur == [] && p.done != [] ==> |Join(p.done[|p.done| - 1], " ")| > maxlen)
  }

  lemma PackedSnoc(chunks: seq<seq<string>>, c: seq<string>, maxlen: int)
    requires Packed(chunks, maxlen) && Packed([c], maxlen)
    requires c != [] && (chunks != [] ==> |Join(chunks[|chunks| - 1], " ")| + 1 + |c[0]| > maxlen)
    ensures Packed(chunks + [c], maxlen)
  {
    var r := chunks + [c];
    assert forall i :: 0 <= i < |chunks| ==> r[i] == chunks[i];
    assert r[|chunks|] == [c][0];
  }

  lemma PackedInit(chunks: seq<seq<string>>, maxlen: int)
    requires Packed(chunks, maxlen) && chunks != []
    ensures Packed(chunks[..|chunks| - 1], maxlen)
  {
  }

  lemma PackWordInv(p: Packing, word: string, maxlen: int)
    requires PackInv(p, maxlen) && IsWord(word)
    ensures PackInv(PackWord(p, word, maxlen), maxlen)
  {
    if p.cur == [] || |Join(p.cur, " ")| + 1 + |word| > maxlen {
      PackWordStarts(p, word, maxlen);
    } else {
      PackWordAppends(p, word, maxlen);
    }
  }

  /** A word that begins a line, or is written alone, keeps the laws. */
  lemma PackWordStarts(p: Packing, word: string, maxlen: int)
    requires PackInv(p, maxlen) && IsWord(word)
    requires p.cur == [] || |Join(p.cur, " ")| + 1 + |word| > maxlen
    ensures PackInv(PackWord(p, word, maxlen), maxlen)
  {
    var q := PackWord(p, word, maxlen);
    assert Join([word], " ") == word;
    assert Packed([[word]], maxlen);
    PackedSnoc(Flush(p), [word], maxlen);
    assert Flush(q) == Flush(p) + [[word]];
  }

  /** A word that still fits after the current line keeps the laws. */
  lemma PackWordAppends(p: Packing, word: string, maxlen: int)
    requires PackInv(p, maxlen) && IsWord(word)
    requires p.cur != [] && |Join(p.cur, " ")| + 1 + |word| <= maxlen
    ensures PackInv(PackWord(p, word, maxlen), maxlen)
  {
    var c := p.cur + [word];
    JoinSnoc(p.cur, word);
    var f := Flush(p);
    assert f == p.done + [p.cur];
    assert f[..|p.done|] == p.done;
    PackedInit(f, maxlen);
    assert f[|p.done|] == p.cur;
    assert c[0] == p.cur[0];
    assert Packed([c], maxlen);
    PackedSnoc(p.done, c, maxlen);
    assert Flush(PackWord(p, word, maxlen)) == p.done + [c];
  }

  lemma {:induction false} PackFromInv(words: seq<string>, maxlen: int)
    requires forall k :: 0 <= k < |words| ==> IsWord(words[k])
    ensures PackInv(PackFrom(NoLines, words, maxlen), maxlen)
  {
    if words != [] {
      PackFromInv(words[..|words| - 1], maxlen);
      PackWordInv(PackFrom(NoLines, words[..|words| - 1], maxlen), words[|words| - 1], maxlen);
    }
  }

  lemma {:induction false} PackFromWords(words: seq<string>, maxlen: int)
    ensures var p := PackFrom(NoLines, words, maxlen); Flatten(p.done) + p.cur == words
  {
    if words != [] {
      var init, word := words[..|words| - 1], words[|words| - 1];
      var p := PackFrom(NoLines, init, maxlen);
      PackFromWords(init, maxlen);
      PackWordWords(p, word, maxlen);
      assert PackFrom(NoLines, words, maxlen) == PackWord(p, word, maxlen);
      assert words == init + [word];
    }
  }

  /** Packing one more word appends it to the words packed so far. */
  lemma PackWordWords(p: Packing, word: string, maxlen: int)
    ensures var q := PackWord(p, word, maxlen); Flatten(q.done) + q.cur == Flatten(p.done) + p.cur + [word]
  {
    if p.cur == [] {
      FlattenSnoc(p.done, [word]);
      assert p.cur + [word] == [word];
    } else if |Join(p.cur, " ")| + 1 + |word| > maxlen {
      FlattenSnoc(p.done, p.cur);
    } else {
      assert Flatten(p.done) + (p.cur + [word]) == Flatten(p.done) + p.cur + [word];
    }
  }

  /** The lines of a paragraph hold its words, in order. */
  lemma PackKeepsWords(words: seq<string>, maxlen: int)
    ensures Flatten(Pack(words, maxlen)) == words
  {
    PackFromWords(words, maxlen);
    var p := PackFrom(NoLines, words, maxlen);
    if p.cur != [] {
      FlattenSnoc(p.done, p.cur);
    } else {
      assert Flatten(p.done) + p.cur == Flatten(p.done);
    }
  }

  /**
   * The lines of a paragraph are non-empty lists of words; a line is longer than the room
   * only when it is one long word; and packing is greedy.
   */
  lemma PackFits(words: seq<string>, maxlen: int)
    requires forall k :: 0 <= k < |words| ==> IsWord(words[k])
    ensures Packed(Pack(words, maxlen), maxlen)
  {
    PackFromInv(words, maxlen);
  }

  /** A printed line: the indent, then words separated by single spaces, longer than the room only when it is one word. */
  predicate PrintedLine(line: string, pad: string, maxlen: int) {
    |pad| <= |line| && line[..|pad|] == pad
    && var text := line[|pad|..];
    Words(text) != [] && text == Join(Words(text), " ") && (|text| > maxlen ==> |Words(text)| == 1)
  }

  lemma PrintedChunk(chunk: seq<string>, pad: string, maxlen: int)
    requires Fits(chunk, maxlen) && forall k :: 0 <= k < |chunk| ==> IsWord(chunk[k])
    ensures PrintedLine(pad + Join(chunk, " "), pad, maxlen)
  {
    var line := pad + Join(chunk, " ");
    assert line[..|pad|] == pad;
    assert line[|pad|..] == Join(chunk, " ");
    WordsOfJoin(chunk);
  }

  /** The lines one paragraph prints. */
  lemma PrintPacked(words: seq<string>, pad: string, maxlen: int)
    requires words != [] && forall k :: 0 <= k < |words| ==> IsWord(words[k])
    ensures Print(Pack(words, maxlen), pad) != []
    ensures forall i :: 0 <= i < |Print(Pack(words, maxlen), pad)| ==> PrintedLine(Print(Pack(words, maxlen), pad)[i], pad, maxlen)
  {
    var chunks := Pack(words, maxlen);
    PackFits(words, maxlen);
    PackKeepsWords(words, maxlen);
    forall i | 0 <= i < |chunks|
      ensures PrintedLine(Print(chunks, pad)[i], pad, maxlen)
    {
      PrintedChunk(chunks[i], pad, maxlen);
    }
  }

  /** paragraph's lines: printed lines, with an empty line between two of them here and there but never at either end or twice in a row. */
  predicate Separated(out: seq<string>, pad: string, maxlen: int) {
    (forall i :: 0 <= i < |out| ==> out[i] == "" || PrintedLine(out[i], pad, maxlen))
    && (forall i :: 0 <= i < |out| && out[i] == "" ==> 0 < i < |out| - 1 && out[i - 1] != "" && out[i + 1] != "")
  }

  lemma SeparatedJoin(a: seq<string>, b: seq<string>, pad: string, maxlen: int)
    requires a != [] && Separated(a, pad, maxlen)
    requires b != [] && forall i :: 0 <= i < |b| ==> PrintedLine(b[i], pad, maxlen)
    ensures Separated(a + [""] + b, pad, maxlen)
  {
    var out := a + [""] + b;
    assert forall i :: 0 <= i < |a| ==> out[i] == a[i];
    assert forall i :: 0 <= i < |b| ==> out[|a| + 1 + i] == b[i];
    assert a[|a| - 1] != "";
  }

  /** Layout yields nothing only for no paragraphs, and its lines are separated as paragraph promises. */
  lemma {:induction false} LayoutSeparated(paras: seq<seq<string>>, pad: string, maxlen: int)
    requires WordLists(paras)
    ensures Layout(paras, pad, maxlen) == [] <==> paras == []
    ensures Separated(Layout(paras, pad, maxlen), pad, maxlen)
  {
    if paras != [] {
      var init, last := paras[..|paras| - 1], paras[|paras| - 1];
      var printed := Print(Pack(last, maxlen), pad);
      PrintPacked(last, pad, maxlen);
      if init == [] {
        assert Layout(paras, pad, maxlen) == printed;
      } else {
        LayoutSeparated(init, pad, maxlen);
        SeparatedJoin(Layout(init, pad, maxlen), printed, pad, maxlen);
      }
    }
  }

  /** Printing lines of words after an indent of spaces keeps the words. */
  lemma {:induction false} PrintWords(chunks: seq<seq<string>>, indent: int)
    requires WordLists(chunks)
    ensures LineWords(Print(chunks, Pad(indent))) == Flatten(chunks)
  {
    if chunks != [] {
      var init, last := chunks[..|chunks| - 1], chunks[|chunks| - 1];
      PrintWords(init, indent);
      LineWordsSnoc(Print(init, Pad(indent)), Pad(indent) + Join(last, " "));
      WordsSpaces(if indent < 0 then 0 else indent, Join(last, " "));
      WordsOfJoin(last);
    }
  }

  /** The lines one paragraph prints hold its words. */
  lemma PrintPackedWords(words: seq<string>, indent: int, maxlen: int)
    requires forall k :: 0 <= k < |words| ==> IsWord(words[k])
    ensures LineWords(Print(Pack(words, maxlen), Pad(indent))) == words
  {
    PackFits(words, maxlen);
    PrintWords(Pack(words, maxlen), indent);
    PackKeepsWords(words, maxlen);
  }

  /** The words of paragraph's lines are the words of its paragraphs, in order. */
  lemma {:induction false} LayoutWords(paras: seq<seq<string>>, indent: int, maxlen: int)
    requires WordLists(paras)
    ensures LineWords(Layout(paras, Pad(indent), maxlen)) == Flatten(paras)
  {
    if paras != [] {
      var init, last := paras[..|paras| - 1], paras[|paras| - 1];
      assert paras == init + [last];
      LayoutLineWords(init, last, Pad(indent), maxlen);
      assert LineWords(Layout(init, Pad(indent), maxlen)) == Flatten(init) by {
        LayoutWords(init, indent, maxlen);
      }
      assert LineWords(Print(Pack(last, maxlen), Pad(indent))) == last by {
        PrintPackedWords(last, indent, maxlen);
      }
      FlattenSnoc(init, last);
    }
  }

  /** The empty line between two paragraphs holds no words. */
  lemma LayoutLineWords(init: seq<seq<string>>, last: seq<string>, pad: string, maxlen: int)
    ensures LineWords(Layout(init + [last], pad, maxlen))
      == LineWords(Layout(init, pad, maxlen)) + LineWords(Print(Pack(last, maxlen), pad))
  {
    var printed := Print(Pack(last, maxlen), pad);
    var sep: seq<string> := if init == [] then [] else [""];
    var before := Layout(init, pad, maxlen);
    assert LineWords(sep) == [] by {
      WordsEmptyIffBlank("");
    }
    assert LineWords(before + sep) == LineWords(before) by {
      LineWordsAppend(before, sep);
    }
    assert Layout(init + [last], pad, maxlen) == before + sep + printed by {
      assert (init + [last])[..|init|] == init;
    }
    assert LineWords(before + sep + printed) == LineWords(before + sep) + LineWords(printed) by {
      LineWordsAppend(before + sep, printed);
    }
  }

  /** Reading paragraph's lines back gives the paragraphs they were made from. */
  lemma {:induction false} LayoutParagraphs(paras: seq<seq<string>>, indent: int, maxlen: int)
    requires WordLists(paras)
    ensures Paragraphs(Layout(paras, Pad(indent), maxlen)) == paras
  {
    if paras != [] {
      var init, last := paras[..|paras| - 1], paras[|paras| - 1];
      var printed := Print(Pack(last, maxlen), Pad(indent));
      assert Paragraphs(printed) == [last] by {
        assert last != [] && forall k :: 0 <= k < |last| ==> IsWord(last[k]);
        PrintedParagraph(last, indent, maxlen);
      }
      if init == [] {
        assert Layout(paras, Pad(indent), maxlen) == printed;
      } else {
        var before := Layout(init, Pad(indent), maxlen);
        assert Layout(paras, Pad(indent), maxlen) == before + [""] + printed;
        assert Paragraphs(before) == init by {
          assert WordLists(init) by {
            forall i | 0 <= i < |init|
              ensures init[i] == paras[i]
            {
            }
          }
          LayoutParagraphs(init, indent, maxlen);
        }
        assert Paragraphs(before + [""] + printed) == init + [last] by {
          ParagraphsBlankSplit(before, "", printed);
        }
        InitLast(paras);
      }
    }
  }

  /** The lines one paragraph prints read back as that one paragraph. */
  lemma PrintedParagraph(words: seq<string>, indent: int, maxlen: int)
    requires words != [] && forall k :: 0 <= k < |words| ==> IsWord(words[k])
    ensures Paragraphs(Print(Pack(words, maxlen), Pad(indent))) == [words]
  {
    var printed := Print(Pack(words, maxlen), Pad(indent));
    PrintPacked(words, Pad(indent), maxlen);
    forall k | 0 <= k < |printed|
      ensures !IsBlank(printed[k])
    {
      PrintedBlank(printed[k], Pad(indent), maxlen);
    }
    ParagraphsBlock(printed);
    PrintPackedWords(words, indent, maxlen);
  }

  /** A printed line is not blank. */
  lemma PrintedBlank(line: string, pad: string, maxlen: int)
    requires PrintedLine(line, pad, maxlen)
    ensures !IsBlank(line)
  {
    var text := line[|pad|..];
    WordsEmptyIffBlank(text);
    var j :| 0 <= j < |text| && !IsSpace(text[j]);
    assert line[|pad| + j] == text[j];
  }

  /** The words paragraph yields are the words of the text, in order. */
  lemma ReflowWords(data: string, columns: int, indent: Option<int>)
    ensures LineWords(Reflow(data, columns, indent)) == LineWords(SplitEach(data, Char('\n')))
  {
    var lines := SplitEach(data, Char('\n'));
    var n := Indent(lines, indent);
    ParagraphsShape(lines);
    ParagraphsWords(lines);
    LayoutWords(Paragraphs(lines), n, TextWidth(columns, n));
  }

  /**
   * paragraph's lines are printed lines (the indent, then words joined by single spaces,
   * over the room only when one word is) and lone empty lines that never open or close the
   * output; read back, they give the paragraphs of the text.
   */
  lemma ReflowShape(data: string, columns: int, indent: Option<int>)
    ensures var lines := SplitEach(data, Char('\n'));
      var n := Indent(lines, indent);
      Separated(Reflow(data, columns, indent), Pad(n), TextWidth(columns, n))
      && Paragraphs(Reflow(data, columns, indent)) == Paragraphs(lines)
  {
    var lines := SplitEach(data, Char('\n'));
    var n := Indent(lines, indent);
    ParagraphsShape(lines);
    LayoutSeparated(Paragraphs(lines), Pad(n), TextWidth(columns, n));
    LayoutParagraphs(Paragraphs(lines), n, TextWidth(columns, n));
  }

  /** Words joined by spaces hold no line break. */
  lemma {:induction false} JoinWordsOneLine(ws: seq<string>)
    requires forall k :: 0 <= k < |ws| ==> IsWord(ws[k])
    ensures SepFree(Join(ws, " "), Char('\n'))
  {
    if |ws| > 1 {
      JoinWordsOneLine(ws[1..]);
      var rest := Join(ws[1..], " ");
      assert Join(ws, " ") == ws[0] + " " + rest;
      assert forall i :: 0 <= i < |ws[0]| ==> !IsSpace(ws[0][i]);
    } else if |ws| == 1 {
      assert forall i :: 0 <= i < |ws[0]| ==> !IsSpace(ws[0][i]);
    }
  }

  /** Words joined by spaces begin with the first letter of the first word. */
  lemma JoinWordsStart(ws: seq<string>)
    requires ws != [] && IsWord(ws[0])
    ensures |Join(ws, " ")| > 0 && Join(ws, " ")[0] == ws[0][0]
  {
  }

  /** A printed line lies on one line when its indent does. */
  lemma PrintedOneLine(line: string, pad: string, maxlen: int)
    requires PrintedLine(line, pad, maxlen) && SepFree(pad, Char('\n'))
    ensures SepFree(line, Char('\n'))
  {
    var text := line[|pad|..];
    JoinWordsOneLine(Words(text));
    assert line == pad + text;
  }

  /** A printed line after an indent of n spaces has n spaces of leading whitespace. */
  lemma PrintedIndent(line: string, n: nat, maxlen: int)
    requires PrintedLine(line, Spaces(n), maxlen)
    ensures !IsBlank(line) && LeadingSpace(line) == n
  {
    var text := line[n..];
    var ws := Words(text);
    JoinWordsStart(ws);
    assert line[n] == text[0] == ws[0][0];
    assert !IsSpace(line[n]);
  }

  /**
   * Reflowing paragraph's own output, joined back into one text, with the same columns
   * and indent yields that output again.
   */
  lemma ReflowIdempotent(data: string, columns: int, indent: Option<int>)
    ensures var out := Reflow(data, columns, indent);
      Reflow(Join(out, "\n"), columns, indent) == out
  {
    var lines := SplitEach(data, Char('\n'));
    var n := Indent(lines, indent);
    var paras := Paragraphs(lines);
    var out := Reflow(data, columns, indent);
    ParagraphsShape(lines);
    ReflowShape(data, columns, indent);
    LayoutSeparated(paras, Pad(n), TextWidth(columns, n));
    if out == [] {
      assert Join(out, "\n") == "";
      assert SplitEach("", Char('\n')) == [""];
      assert GatherFrom(NoParagraphs, [""]) == NoParagraphs;
    } else {
      assert SplitEach(Join(out, "\n"), Char('\n')) == out by {
        forall k | 0 <= k < |out|
          ensures SepFree(out[k], Char('\n'))
        {
          if out[k] != "" {
            PrintedOneLine(out[k], Pad(n), TextWidth(columns, n));
          }
        }
        JoinSplitEach(out, '\n');
      }
      assert Indent(out, indent) == n by {
        if indent.None? {
          assert n >= 0 && Pad(n) == Spaces(n);
          FirstIndentPrinted(out, n, TextWidth(columns, n));
        }
      }
      assert Paragraphs(out) == paras;
    }
  }

  /** Output whose first line is printed after v spaces has the indent v. */
  lemma FirstIndentPrinted(out: seq<string>, v: nat, maxlen: int)
    requires out != [] && Separated(out, Spaces(v), maxlen)
    ensures FirstIndent(out) == Some(v)
  {
    assert out[0] != "";
    PrintedIndent(out[0], v, maxlen);
  }
}
