/** Greedy word wrapping with optional line cap and ellipsis, and the
    search for the mod-name caption's font size and position on the
    workshop square image. Text measurement belongs to the font library and
    is a parameter. */
module TextFit {
  import opened Results
  import opened Strings

  /** The rendered width of a string in the font in use. */
  type Measure = string -> real

  const Ellipsis: string := "..."
  const Untitled: string := "Untitled"

  /** The words `words[a..b]` joined by single spaces: one output line. */
  function Line(words: seq<string>, a: nat, b: nat): string
    requires a <= b <= |words|
  {
    JoinWith(words[a..b], " ")
  }

  /** The line made of `words[a..b]` is what the greedy rule produces: it
      starts with one word, each further word was accepted because the line
      with it still fit, and the next word (if any) did not fit. */
  predicate GreedyLine(words: seq<string>, a: nat, b: nat, measure: Measure, maxWidth: int) {
    && a < b <= |words|
    && (forall k :: a + 1 < k <= b ==> measure(Line(words, a, k)) <= maxWidth as real)
    && (b < |words| ==> measure(Line(words, a, b + 1)) > maxWidth as real)
  }

  /** The inner loop: the line holds `words[a..i]` and takes words while the
      candidate line fits. */
  function ExtendLine(words: seq<string>, a: nat, i: nat, measure: Measure, maxWidth: int): (b: nat)
    requires a < i <= |words|
    ensures i <= b <= |words|
    ensures forall k :: i < k <= b ==> measure(Line(words, a, k)) <= maxWidth as real
    ensures b < |words| ==> measure(Line(words, a, b + 1)) > maxWidth as real
    decreases |words| - i
  {
    if i < |words| then
      var candidate := Line(words, a, i) + " " + words[i];
      assert words[a..i + 1] == words[a..i] + [words[i]];
      JoinWithSnoc(words[a..i], words[i], " ");
      if measure(candidate) <= maxWidth as real then
        ExtendLine(words, a, i + 1, measure, maxWidth)
      else i
    else i
  }

  /** Where the ranges stop: the end of the last one, or `start`. */
  function Reached(rs: seq<(nat, nat)>, start: nat): nat {
    if |rs| == 0 then start else rs[|rs| - 1].1
  }

  /** Consecutive ranges, the first beginning at `start`. */
  predicate Chained(rs: seq<(nat, nat)>, start: nat) {
    && (|rs| > 0 ==> rs[0].0 == start)
    && (forall k :: 0 <= k < |rs| - 1 ==> rs[k].1 == rs[k + 1].0)
  }

  /** The outer loop: a new line starts while words remain and the cap (if
      any) is not reached; `made` lines exist already. */
  function LineRanges(words: seq<string>, start: nat, made: nat, maxLines: Option<int>,
                      measure: Measure, maxWidth: int): (rs: seq<(nat, nat)>)
    requires start <= |words|
    ensures forall k :: 0 <= k < |rs| ==> GreedyLine(words, rs[k].0, rs[k].1, measure, maxWidth)
    ensures Chained(rs, start)
    ensures start <= Reached(rs, start) <= |words|
    ensures maxLines.Some? ==> made + |rs| <= if made < maxLines.value then maxLines.value else made
    ensures Reached(rs, start) == |words| || (maxLines.Some? && made + |rs| >= maxLines.value)
    ensures start < |words| && (maxLines.None? || made < maxLines.value) ==> |rs| > 0
    decreases |words| - start
  {
    if start < |words| && (maxLines.None? || made < maxLines.value) then
      var end := ExtendLine(words, start, start + 1, measure, maxWidth);
      var rest := LineRanges(words, end, made + 1, maxLines, measure, maxWidth);
      ConsRange(words, start, end, rest, measure, maxWidth);
      [(start, end)] + rest
    else []
  }

  /** A greedy line in front of a chain of greedy lines that starts where
      it ends is a chain of greedy lines. */
  lemma ConsRange(words: seq<string>, start: nat, end: nat, rest: seq<(nat, nat)>, measure: Measure, maxWidth: int)
    requires GreedyLine(words, start, end, measure, maxWidth)
    requires forall k :: 0 <= k < |rest| ==> GreedyLine(words, rest[k].0, rest[k].1, measure, maxWidth)
    requires Chained(rest, end)
    ensures var rs := [(start, end)] + rest;
      && (forall k :: 0 <= k < |rs| ==> GreedyLine(words, rs[k].0, rs[k].1, measure, maxWidth))
      && Chained(rs, start)
      && Reached(rs, start) == Reached(rest, end)
  {
    var rs := [(start, end)] + rest;
    assert forall k :: 1 <= k < |rs| ==> rs[k] == rest[k - 1];
  }

  /** The text of each range. */
  function Lines(words: seq<string>, rs: seq<(nat, nat)>): (lines: seq<string>)
    requires forall k :: 0 <= k < |rs| ==> rs[k].0 <= rs[k].1 <= |words|
    ensures |lines| == |rs|
    ensures forall k :: 0 <= k < |rs| ==> lines[k] == Line(words, rs[k].0, rs[k].1)
  {
    seq(|rs|, k requires 0 <= k < |rs| => Line(words, rs[k].0, rs[k].1))
  }

  /** Dropping the last space-separated part of a string with a space leaves
      a proper prefix of it. */
  lemma {:induction false} DropLastPart(last: string)
    requires |SplitOn(last, ' ')| > 1
    ensures var parts := SplitOn(last, ' ');
      var shorter := JoinWith(parts[..|parts| - 1], " ");
      |shorter| < |last| && last[..|shorter|] == shorter
  {
    JoinSplitOn(last, ' ');
    assert [' '] == " ";
    JoinDropLast(SplitOn(last, ' '), " ");
  }

  /** The ellipsis loop: cut whole words (or, with one word left, single
      characters) off the end until the line with "..." fits or nothing is
      left. */
  function TrimForEllipsis(last: string, measure: Measure, maxWidth: int): (r: string)
    ensures |r| <= |last| && last[..|r|] == r
    ensures r == [] || measure(r + Ellipsis) <= maxWidth as real
    ensures measure(last + Ellipsis) <= maxWidth as real ==> r == last
    decreases |last|
  {
    if |last| > 0 && measure(last + Ellipsis) > maxWidth as real then
      var parts := SplitOn(last, ' ');
      if |parts| <= 1 then
        TrimForEllipsis(last[..|last| - 1], measure, maxWidth)
      else
        DropLastPart(last);
        TrimForEllipsis(JoinWith(parts[..|parts| - 1], " "), measure, maxWidth)
    else last
  }

  /** The lines of a non-blank text as word ranges, before any ellipsis. */
  function WrapRanges(text: string, measure: Measure, maxWidth: int, maxLines: Option<int>): seq<(nat, nat)> {
    LineRanges(Words(Strip(text)), 0, 0, maxLines, measure, maxWidth)
  }

  /** The line cap stopped the wrap before the last word. */
  predicate Overflows(text: string, measure: Measure, maxWidth: int, maxLines: Option<int>) {
    Reached(WrapRanges(text, measure, maxWidth, maxLines), 0) < |Words(Strip(text))|
  }

  /** Word-wraps `text` to `maxWidth`: blank text becomes "Untitled"; with
      `truncate` and words left over, the last line is cut to fit "...". */
  function WrapText(text: string, measure: Measure, maxWidth: int, maxLines: Option<int>, truncate: bool): (lines: seq<string>)
    ensures Words(Strip(text)) == [] ==> lines == [if Strip(text) == [] then Untitled else Strip(text)]
    ensures Words(Strip(text)) != [] && !(truncate && Overflows(text, measure, maxWidth, maxLines))
      ==> lines == Lines(Words(Strip(text)), WrapRanges(text, measure, maxWidth, maxLines))
  {
    var words := Words(Strip(text));
    if |words| == 0 then
      [if Strip(text) == [] then Untitled else Strip(text)]
    else
      var rs := WrapRanges(text, measure, maxWidth, maxLines);
      var lines := Lines(words, rs);
      if truncate && Reached(rs, 0) < |words| && |lines| > 0 then
        lines[..|lines| - 1] + [Strip(TrimForEllipsis(lines[|lines| - 1], measure, maxWidth) + Ellipsis)]
      else lines
  }

  /** A string of spaces has no words once stripped, and the other way
      round. */
  lemma BlankHasNoWords(text: string)
    ensures AllSpace(text) <==> Words(Strip(text)) == []
  {
    var r := Strip(text);
    if AllSpace(text) {
      assert AllSpace(r);
    }
    if Words(r) == [] {
      NoWordsAllSpace(r);
      var i := |text| - |StripLeft(text)|;
      assert text[..i] == text;
    }
  }

  /** Blank input wraps to the single line "Untitled". */
  lemma WrapBlank(text: string, measure: Measure, maxWidth: int, maxLines: Option<int>, truncate: bool)
    requires AllSpace(text)
    ensures WrapText(text, measure, maxWidth, maxLines, truncate) == [Untitled]
  {
    BlankHasNoWords(text);
    StripAllSpace(text);
  }

  /** Non-blank input yields at most `maxLines` lines (none if the cap is not
      positive), and at least one line when the cap allows one. */
  lemma WrapLineCount(text: string, measure: Measure, maxWidth: int, maxLines: Option<int>, truncate: bool)
    requires !AllSpace(text)
    ensures var lines := WrapText(text, measure, maxWidth, maxLines, truncate);
      && (maxLines.Some? ==> |lines| <= if maxLines.value < 0 then 0 else maxLines.value)
      && (maxLines.None? || maxLines.value >= 1 ==> |lines| >= 1)
  {
    BlankHasNoWords(text);
  }

  /** A non-empty chain of non-empty ranges ends after it starts. */
  lemma {:induction false} ChainAdvances(rs: seq<(nat, nat)>, start: nat)
    requires |rs| > 0 && Chained(rs, start)
    requires forall k :: 0 <= k < |rs| ==> rs[k].0 < rs[k].1
    ensures start < Reached(rs, start)
  {
    if |rs| > 1 {
      var rest := rs[1..];
      ChainTail(rs, start);
      ChainAdvances(rest, rs[0].1);
    }
  }

  lemma ChainTail(rs: seq<(nat, nat)>, start: nat)
    requires |rs| > 1 && Chained(rs, start)
    ensures Chained(rs[1..], rs[0].1) && Reached(rs[1..], rs[0].1) == Reached(rs, start)
  {
    var rest := rs[1..];
    forall k | 0 <= k < |rest| - 1
      ensures rest[k].1 == rest[k + 1].0
    {
      assert rest[k] == rs[k + 1];
    }
  }

  /** Joining a chain of ranges' lines with spaces joins their words. */
  lemma {:induction false} JoinLines(words: seq<string>, rs: seq<(nat, nat)>, start: nat)
    requires |rs| > 0 && Chained(rs, start)
    requires forall k :: 0 <= k < |rs| ==> rs[k].0 < rs[k].1 <= |words|
    ensures start < Reached(rs, start) <= |words|
    ensures JoinWith(Lines(words, rs), " ") == Line(words, start, Reached(rs, start))
  {
    ChainAdvances(rs, start);
    if |rs| > 1 {
      var rest := rs[1..];
      ChainTail(rs, start);
      JoinLines(words, rest, rs[0].1);
      assert Lines(words, rs)[1..] == Lines(words, rest);
      assert Reached(rest, rs[0].1) == Reached(rs, start);
      assert rs[1].0 == rs[0].1;
      JoinWithSplitAt(words, start, rs[0].1, Reached(rs, start), " ");
    }
  }

  /** Without a line cap every word is placed: splitting the joined lines
      again gives back the words of the text. */
  lemma WrapKeepsWords(text: string, measure: Measure, maxWidth: int, truncate: bool)
    requires !AllSpace(text)
    ensures !Overflows(text, measure, maxWidth, None)
    ensures Words(JoinWith(WrapText(text, measure, maxWidth, None, truncate), " ")) == Words(Strip(text))
    ensures JoinWith(WrapText(text, measure, maxWidth, None, truncate), " ") == JoinWith(Words(Strip(text)), " ")
  {
    BlankHasNoWords(text);
    var words := Words(Strip(text));
    var rs := WrapRanges(text, measure, maxWidth, None);
    JoinLines(words, rs, 0);
    WordsAreWords(Strip(text));
    assert words[0..|words|] == words;
    WordsOfJoin(words);
  }

  /** Line `k` could not have taken the first word of line `k + 1`. */
  predicate BreakForced(lines: seq<string>, k: nat, measure: Measure, maxWidth: int)
    requires k + 1 < |lines|
  {
    |Words(lines[k + 1])| > 0 && measure(lines[k] + " " + Words(lines[k + 1])[0]) > maxWidth as real
  }

  /** A greedy line fits, or it is one word and so holds no space. */
  lemma GreedyLineFits(words: seq<string>, a: nat, b: nat, measure: Measure, maxWidth: int)
    requires GreedyLine(words, a, b, measure, maxWidth)
    requires forall k :: 0 <= k < |words| ==> IsWord(words[k])
    ensures ' ' !in Line(words, a, b) || measure(Line(words, a, b)) <= maxWidth as real
  {
    if b == a + 1 {
      assert words[a..b] == [words[a]];
      assert IsSpace(' ');
      assert IsWord(words[a]);
    }
  }

  /** After a greedy line the next line's first word did not fit. */
  lemma GreedyBreak(words: seq<string>, a: nat, b: nat, c: nat, measure: Measure, maxWidth: int)
    requires GreedyLine(words, a, b, measure, maxWidth) && b < c <= |words|
    requires forall k :: 0 <= k < |words| ==> IsWord(words[k])
    ensures var next := Words(Line(words, b, c));
      |next| > 0 && measure(Line(words, a, b) + " " + next[0]) > maxWidth as real
  {
    assert forall j :: 0 <= j < |words[b..c]| ==> words[b..c][j] == words[b + j];
    WordsOfJoin(words[b..c]);
    assert words[a..b + 1] == words[a..b] + [words[b]];
    JoinWithSnoc(words[a..b], words[b], " ");
  }

  /** Every line of an untruncated wrap fits or is a single word, and no
      line could have taken the next line's first word. */
  lemma WrapGreedy(text: string, measure: Measure, maxWidth: int, maxLines: Option<int>)
    requires !AllSpace(text)
    ensures var lines := WrapText(text, measure, maxWidth, maxLines, false);
      && (forall k :: 0 <= k < |lines| ==> ' ' !in lines[k] || measure(lines[k]) <= maxWidth as real)
      && (forall k :: 0 <= k < |lines| - 1 ==> BreakForced(lines, k, measure, maxWidth))
  {
    BlankHasNoWords(text);
    var words := Words(Strip(text));
    WordsAreWords(Strip(text));
    var rs := WrapRanges(text, measure, maxWidth, maxLines);
    var lines := WrapText(text, measure, maxWidth, maxLines, false);
    assert lines == Lines(words, rs);
    forall k | 0 <= k < |lines|
      ensures ' ' !in lines[k] || measure(lines[k]) <= maxWidth as real
    {
      GreedyLineFits(words, rs[k].0, rs[k].1, measure, maxWidth);
    }
    forall k | 0 <= k < |lines| - 1
      ensures BreakForced(lines, k, measure, maxWidth)
    {
      GreedyBreak(words, rs[k].0, rs[k].1, rs[k + 1].1, measure, maxWidth);
    }
  }

  /** With `truncate` and words left over, only the last line changes: it
      becomes a prefix of itself followed by "...", and that fits unless
      nothing of the line is left. Without left-over words the flag has no
      effect. */
  lemma WrapEllipsis(text: string, measure: Measure, maxWidth: int, maxLines: Option<int>)
    requires !AllSpace(text)
    ensures !Overflows(text, measure, maxWidth, maxLines)
      ==> WrapText(text, measure, maxWidth, maxLines, true) == WrapText(text, measure, maxWidth, maxLines, false)
    ensures Overflows(text, measure, maxWidth, maxLines) && maxLines.Some? && maxLines.value >= 1 ==>
      EllipsisCut(WrapText(text, measure, maxWidth, maxLines, false),
                  WrapText(text, measure, maxWidth, maxLines, true), measure, maxWidth)
  {
    BlankHasNoWords(text);
    if Overflows(text, measure, maxWidth, maxLines) && maxLines.Some? && maxLines.value >= 1 {
      WrapEllipsisCut(text, measure, maxWidth, maxLines);
    }
  }

  /** The overflowing case of `WrapEllipsis`, on the ranges. */
  lemma WrapEllipsisCut(text: string, measure: Measure, maxWidth: int, maxLines: Option<int>)
    requires Words(Strip(text)) != []
    requires Overflows(text, measure, maxWidth, maxLines) && maxLines.Some? && maxLines.value >= 1
    ensures EllipsisCut(WrapText(text, measure, maxWidth, maxLines, false),
                        WrapText(text, measure, maxWidth, maxLines, true), measure, maxWidth)
  {
    WrapCutLast(text, measure, maxWidth, maxLines);
    CutShape(WrapText(text, measure, maxWidth, maxLines, false),
             WrapText(text, measure, maxWidth, maxLines, true), measure, maxWidth);
  }

  /** With left-over words the truncated wrap is the plain wrap with its
      last line trimmed and "..." appended. */
  lemma WrapCutLast(text: string, measure: Measure, maxWidth: int, maxLines: Option<int>)
    requires Words(Strip(text)) != []
    requires Overflows(text, measure, maxWidth, maxLines) && maxLines.Some? && maxLines.value >= 1
    ensures TrimmedLast(WrapText(text, measure, maxWidth, maxLines, false),
                        WrapText(text, measure, maxWidth, maxLines, true), measure, maxWidth)
  {
    WrapPlain(text, measure, maxWidth, maxLines);
    WrapCutLines(text, measure, maxWidth, maxLines);
  }

  /** `WrapCutLast` on the lines of the ranges. */
  lemma WrapCutLines(text: string, measure: Measure, maxWidth: int, maxLines: Option<int>)
    requires Words(Strip(text)) != []
    requires Overflows(text, measure, maxWidth, maxLines) && |WrapRanges(text, measure, maxWidth, maxLines)| > 0
    ensures TrimmedLast(Lines(Words(Strip(text)), WrapRanges(text, measure, maxWidth, maxLines)),
                        WrapText(text, measure, maxWidth, maxLines, true), measure, maxWidth)
  {
    var lines := Lines(Words(Strip(text)), WrapRanges(text, measure, maxWidth, maxLines));
    LastLineUnspaced(text, measure, maxWidth, maxLines);
    WrapCut(text, measure, maxWidth, maxLines);
    var last := lines[|lines| - 1];
    EllipsisStrips(last, TrimForEllipsis(last, measure, maxWidth));
  }

  /** `cut` is `plain` with its last line trimmed for, and followed by,
      "...". */
  predicate TrimmedLast(plain: seq<string>, cut: seq<string>, measure: Measure, maxWidth: int) {
    |plain| >= 1 && cut == plain[..|plain| - 1] + [TrimForEllipsis(plain[|plain| - 1], measure, maxWidth) + Ellipsis]
  }

  /** The last wrapped line starts with a word. */
  lemma LastLineUnspaced(text: string, measure: Measure, maxWidth: int, maxLines: Option<int>)
    requires |WrapRanges(text, measure, maxWidth, maxLines)| > 0
    ensures var lines := Lines(Words(Strip(text)), WrapRanges(text, measure, maxWidth, maxLines));
      var last := lines[|lines| - 1];
      last == [] || !IsSpace(last[0])
  {
    var words := Words(Strip(text));
    var rs := WrapRanges(text, measure, maxWidth, maxLines);
    var n := |rs|;
    assert GreedyLine(words, rs[n - 1].0, rs[n - 1].1, measure, maxWidth);
    WordsAreWords(Strip(text));
    LineStartsWithWord(words, rs[n - 1].0, rs[n - 1].1);
  }

  /** `cut` is `plain` with only its last line changed, to a prefix of that
      line followed by "...", which fits unless the prefix is empty. */
  predicate EllipsisCut(plain: seq<string>, cut: seq<string>, measure: Measure, maxWidth: int) {
    var n := |plain|;
    && n >= 1
      && |cut| == n && cut[..n - 1] == plain[..n - 1]
      && |cut[n - 1]| >= |Ellipsis|
      && var kept := cut[n - 1][..|cut[n - 1]| - |Ellipsis|];
         && cut[n - 1] == kept + Ellipsis
         && |kept| <= |plain[n - 1]| && plain[n - 1][..|kept|] == kept
         && (kept == [] || measure(cut[n - 1]) <= maxWidth as real)
  }

  /** Replacing the last line by a fitting prefix of it plus "..." is an
      ellipsis cut. */
  lemma CutShape(plain: seq<string>, cut: seq<string>, measure: Measure, maxWidth: int)
    requires TrimmedLast(plain, cut, measure, maxWidth)
    ensures EllipsisCut(plain, cut, measure, maxWidth)
  {
    var n := |plain|;
    var r := TrimForEllipsis(plain[n - 1], measure, maxWidth);
    assert cut[n - 1] == r + Ellipsis;
    assert cut[n - 1][..|cut[n - 1]| - |Ellipsis|] == r;
  }

  /** Without truncation a non-blank text wraps to the lines of its
      ranges, and there is at least one when the cap allows one. */
  lemma WrapPlain(text: string, measure: Measure, maxWidth: int, maxLines: Option<int>)
    requires Words(Strip(text)) != []
    ensures WrapText(text, measure, maxWidth, maxLines, false)
      == Lines(Words(Strip(text)), WrapRanges(text, measure, maxWidth, maxLines))
    ensures maxLines.None? || maxLines.value >= 1 ==> |WrapRanges(text, measure, maxWidth, maxLines)| > 0
  {
  }

  /** With truncation and left-over words, the last line is replaced. */
  lemma WrapCut(text: string, measure: Measure, maxWidth: int, maxLines: Option<int>)
    requires Words(Strip(text)) != []
    requires Overflows(text, measure, maxWidth, maxLines) && |WrapRanges(text, measure, maxWidth, maxLines)| > 0
    ensures var plain := Lines(Words(Strip(text)), WrapRanges(text, measure, maxWidth, maxLines));
      var n := |plain|;
      WrapText(text, measure, maxWidth, maxLines, true)
        == plain[..n - 1] + [Strip(TrimForEllipsis(plain[n - 1], measure, maxWidth) + Ellipsis)]
  {
  }

  /** A line starts with the first character of its first word. */
  lemma LineStartsWithWord(words: seq<string>, a: nat, b: nat)
    requires a < b <= |words| && IsWord(words[a])
    ensures |Line(words, a, b)| > 0 && Line(words, a, b)[0] == words[a][0]
  {
    var ws := words[a..b];
    assert ws[0] == words[a];
    if |ws| > 1 {
      assert JoinWith(ws, " ") == ws[0] + " " + JoinWith(ws[1..], " ");
    }
  }

  /** A trimmed line plus "..." has nothing for `strip()` to remove. */
  lemma EllipsisStrips(last: string, r: string)
    requires |r| <= |last| && last[..|r|] == r
    requires last == [] || !IsSpace(last[0])
    ensures Strip(r + Ellipsis) == r + Ellipsis
  {
    var t := r + Ellipsis;
    assert !IsSpace('.');
    if r != [] {
      assert t[0] == last[0];
    }
    assert t[|t| - 1] == '.';
    StripUntrimmed(t);
  }

  /** The font library's answers for the overlay font at a given size:
      `textlength`, and the width and height of `multiline_textbbox` for a
      text, line spacing and stroke width. */
  datatype FontMetrics = FontMetrics(
    textLength: (int, string) -> real,
    textBox: (int, string, int, int) -> (real, real))

  function Max(a: int, b: int): int {
    if a < b then b else a
  }

  /** The caption box in the bottom-right quarter and the sizes derived
      from the image size. */
  datatype CaptionFrame = CaptionFrame(
    left: int, top: int, right: int, bottom: int,
    inner: int, maxW: int, maxH: int, stroke: int, spacing: int,
    minSize: int, maxSize: int, lift: int)

  function Frame(w: nat, h: nat): (f: CaptionFrame)
    ensures f.maxW >= 24 && f.maxH >= 20 && f.inner >= 8
    ensures f.stroke >= 2 && f.spacing >= 2 && f.lift >= 4
    ensures 8 <= f.minSize <= f.maxSize && f.maxSize >= 14
  {
    var margin := Max(8, w / 32);
    var left := w / 2 + margin / 2;
    var top := h / 2 + margin / 2;
    var right := w - margin;
    var bottom := h - margin;
    var inner := Max(8, margin);
    CaptionFrame(
      left, top, right, bottom, inner,
      Max(24, (right - left) - inner * 2), Max(20, (bottom - top) - inner * 2),
      Max(2, h / 170), Max(2, h / 128), Max(8, w / 40), Max(14, w / 9), Max(4, h / 64))
  }

  /** The caption text: the stripped mod name, or "Untitled". */
  function CaptionText(modName: string): (t: string)
    ensures !AllSpace(t)
  {
    var t := Strip(modName);
    if t == [] then
      assert !IsSpace(Untitled[0]);
      Untitled
    else
      assert !IsSpace(t[0]);
      t
  }

  function MeasureAt(m: FontMetrics, size: int): Measure {
    s => m.textLength(size, s)
  }

  /** The uncapped wrap at `size` fits the box's width and height. */
  predicate SizeFits(text: string, size: int, f: CaptionFrame, m: FontMetrics) {
    var lines := WrapText(text, MeasureAt(m, size), f.maxW, None, false);
    var tb := m.textBox(size, JoinWith(lines, "\n"), f.spacing, f.stroke);
    tb.0 <= f.maxW as real && tb.1 <= f.maxH as real
  }

  /** `SizeFits` for each font size. */
  function Fits(text: string, f: CaptionFrame, m: FontMetrics): int -> bool {
    s => SizeFits(text, s, f, m)
  }

  lemma FitsIs(text: string, f: CaptionFrame, m: FontMetrics)
    ensures forall s :: Fits(text, f, m)(s) == SizeFits(text, s, f, m)
  {
  }

  /** The size loop, counting down from `size` to `minSize`: the largest
      size that fits, or none. */
  function FirstFit(fits: int -> bool, size: int, minSize: int): (r: Option<int>)
    ensures r.Some? ==>
      && minSize <= r.value <= size && fits(r.value)
      && forall s :: r.value < s <= size ==> !fits(s)
    ensures r.None? ==> forall s :: minSize <= s <= size ==> !fits(s)
    decreases size - minSize
  {
    if size < minSize then None
    else if fits(size) then Some(size)
    else FirstFit(fits, size - 1, minSize)
  }

  /** Where and how the caption is drawn: font size, lines and the top-left
      corner of the text block. */
  datatype Caption = Caption(size: int, lines: seq<string>, x: real, y: real)

  /** Lays out the mod name in the bottom-right box: the largest size whose
      wrap fits; failing that, the minimum size with at most six lines and
      an ellipsis. The block is right-aligned to the box's inner edge and
      lifted off the bottom, but never above the box's inner top. */
  function ModNameCaption(w: nat, h: nat, modName: string, m: FontMetrics): (c: Caption)
    ensures var f := Frame(w, h);
      var text := CaptionText(modName);
      && f.minSize <= c.size <= f.maxSize
      && (forall s :: c.size < s <= f.maxSize ==> !SizeFits(text, s, f, m))
      && (SizeFits(text, c.size, f, m) ==> c.lines == WrapText(text, MeasureAt(m, c.size), f.maxW, None, false))
      && (!SizeFits(text, c.size, f, m) ==>
            && c.size == f.minSize
            && (forall s :: f.minSize <= s <= f.maxSize ==> !SizeFits(text, s, f, m))
            && c.lines == WrapText(text, MeasureAt(m, f.minSize), f.maxW, Some(6), true))
      && c.y >= (f.top + f.inner) as real
      && var tb := m.textBox(c.size, JoinWith(c.lines, "\n"), f.spacing, f.stroke);
         && c.x + tb.0 == (f.right - f.inner) as real
         && (c.y == (f.top + f.inner) as real || c.y + tb.1 + f.lift as real == (f.bottom - f.inner) as real)
  {
    var f := Frame(w, h);
    var text := CaptionText(modName);
    var found := FirstFit(Fits(text, f, m), f.maxSize, f.minSize);
    FitsIs(text, f, m);
    var size := if found.Some? then found.value else f.minSize;
    var lines :=
      if found.Some? then WrapText(text, MeasureAt(m, size), f.maxW, None, false)
      else WrapText(text, MeasureAt(m, size), f.maxW, Some(6), true);
    var tb := m.textBox(size, JoinWith(lines, "\n"), f.spacing, f.stroke);
    var x := (f.right - f.inner) as real - tb.0;
    var low := (f.bottom - f.inner) as real - tb.1 - f.lift as real;
    var y := if (f.top + f.inner) as real < low then low else (f.top + f.inner) as real;
    Caption(size, lines, x, y)
  }

  /** The fallback caption has between one and six lines, and when some
      words did not fit in six lines its last line ends in "...". */
  lemma FallbackCaptionLines(w: nat, h: nat, modName: string, m: FontMetrics)
    ensures var f := Frame(w, h);
      var c := ModNameCaption(w, h, modName, m);
      && 1 <= |c.lines|
      && (!SizeFits(CaptionText(modName), c.size, f, m) ==> |c.lines| <= 6)
  {
    var f := Frame(w, h);
    var text := CaptionText(modName);
    var c := ModNameCaption(w, h, modName, m);
    if SizeFits(text, c.size, f, m) {
      WrapLineCount(text, MeasureAt(m, c.size), f.maxW, None, false);
    } else {
      WrapLineCount(text, MeasureAt(m, f.minSize), f.maxW, Some(6), true);
    }
  }

  /** When even the smallest size overflows six lines, the last line of the
      fallback ends in the ellipsis. */
  lemma FallbackCaptionEllipsis(w: nat, h: nat, modName: string, m: FontMetrics)
    ensures var f := Frame(w, h);
      var text := CaptionText(modName);
      var c := ModNameCaption(w, h, modName, m);
      !SizeFits(text, c.size, f, m) && Overflows(text, MeasureAt(m, f.minSize), f.maxW, Some(6)) ==>
        |c.lines| >= 1 && |c.lines[|c.lines| - 1]| >= |Ellipsis|
        && c.lines[|c.lines| - 1][|c.lines[|c.lines| - 1]| - |Ellipsis|..] == Ellipsis
  {
    var f := Frame(w, h);
    var text := CaptionText(modName);
    var c := ModNameCaption(w, h, modName, m);
    if !SizeFits(text, c.size, f, m) {
      WrapLineCount(text, MeasureAt(m, f.minSize), f.maxW, Some(6), true);
      WrapEllipsis(text, MeasureAt(m, f.minSize), f.maxW, Some(6));
    }
  }
}
