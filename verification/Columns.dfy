/** Visible width and column slicing (packages/tui/src/utils.ts:40-48, 198-257 and 1189-1240). */
module Columns {
  import opened AnsiScanner
  import opened AnsiStyle
  import opened Segments
  import opened Strings

  const TAB: Unit := 0x09
  const SPACE: Unit := 0x20
  const TAB_WIDTH: nat := 3

  // ------------------------------------------------------------------ visible width

  predicate IsPrintableAscii(text: Str) {
    forall i | 0 <= i < |text| :: 0x20 <= text[i] <= 0x7e
  }

  function ExpandTabs(text: Str): Str {
    if text == [] then [] else (if text[0] == TAB then [SPACE, SPACE, SPACE] else [text[0]]) + ExpandTabs(text[1..])
  }

  /** `text` from `i` on without its escape sequences. */
  function Stripped(text: Str, i: nat): Str
    decreases |text| - i
  {
    if i >= |text| then []
    else
      match AnsiEndAt(text, i)
      case Some(end) => Stripped(text, end)
      case None => [text[i]] + Stripped(text, i + 1)
  }

  function TotalWidth(gs: seq<Grapheme>): nat {
    if gs == [] then 0 else TotalWidth(gs[..|gs| - 1]) + gs[|gs| - 1].width
  }

  function VisibleWidth(text: Str, graphemes: Segmenter): nat {
    if IsPrintableAscii(text) then |text| else TotalWidth(graphemes(Stripped(ExpandTabs(text), 0)))
  }

  // ------------------------------------------------------------------ laws of segmenters

  predicate IsOnes(gs: seq<Grapheme>, t: Str) {
    |gs| == |t| && forall i | 0 <= i < |t| :: gs[i] == Grapheme([t[i]], 1)
  }

  /** Every printable ASCII character is a grapheme of its own, one column wide. */
  ghost predicate AsciiIsPlain(graphemes: Segmenter) {
    forall t: Str | IsPrintableAscii(t) :: IsOnes(graphemes(t), t)
  }

  /** Whether a grapheme ends somewhere is decided by what stands before and just after that place: the first graphemes
      of a text are segmented alike without the rest. */
  ghost predicate IsPrefixStable(graphemes: Segmenter) {
    forall t: Str, k: nat | k <= |graphemes(t)| :: graphemes(Joined(graphemes(t)[..k])) == graphemes(t)[..k]
  }

  lemma {:induction false} OnesWidth(gs: seq<Grapheme>, t: Str)
    requires IsOnes(gs, t)
    ensures TotalWidth(gs) == |t|
    decreases |gs|
  {
    if gs != [] {
      OnesWidth(gs[..|gs| - 1], t[..|t| - 1]);
    }
  }

  lemma {:induction false} NothingStripped(text: Str, i: nat)
    requires i <= |text| && ESC !in text
    ensures Stripped(text, i) == text[i..]
    decreases |text| - i
  {
    if i < |text| {
      assert text[i] in text;
      NothingStripped(text, i + 1);
      assert text[i..] == [text[i]] + text[i + 1..];
    }
  }

  lemma {:induction false} NothingExpanded(text: Str)
    requires TAB !in text
    ensures ExpandTabs(text) == text
  {
    if text != [] {
      assert text[0] in text;
      NothingExpanded(text[1..]);
    }
  }

  /** For texts without tabs the shortcut for ASCII agrees with the general case. */
  lemma VisibleWidthWithoutTabs(text: Str, graphemes: Segmenter)
    requires AsciiIsPlain(graphemes) && TAB !in text
    ensures VisibleWidth(text, graphemes) == TotalWidth(graphemes(Stripped(text, 0)))
  {
    hide Stripped, ExpandTabs, TotalWidth, IsOnes;
    NothingExpanded(text);
    if IsPrintableAscii(text) {
      assert forall u | u in text :: u != ESC;
      NothingStripped(text, 0);
      assert text[0..] == text;
      OnesWidth(graphemes(text), text);
    }
  }

  // ------------------------------------------------------------------ slicing

  datatype Slice = Slice(text: Str, width: nat, pendingAnsi: Str)

  function SpanText(line: Str, s: Span): Str {
    if s.start <= s.end <= |line| then line[s.start..s.end] else []
  }

  function TakeSpan(p: Slice, s: Span, text: Str, col: nat, startCol: int, endCol: int, strict: bool): Slice {
    if s.Code? then
      if startCol <= col < endCol then p.(text := p.text + text)
      else if col < startCol then p.(pendingAnsi := p.pendingAnsi + text)
      else p
    else if startCol <= col < endCol && (!strict || col + s.width <= endCol) then
      p.(text := p.text + p.pendingAnsi + text, pendingAnsi := [], width := p.width + s.width)
    else p
  }

  /** What the first `k` spans leave in the slice. */
  function Sliced(line: Str, spans: seq<Span>, k: nat, startCol: int, endCol: int, strict: bool): Slice
    requires k <= |spans|
  {
    if k == 0 then Slice([], 0, [])
    else
      TakeSpan(Sliced(line, spans, k - 1, startCol, endCol, strict), spans[k - 1], SpanText(line, spans[k - 1]),
               Column(spans, k - 1), startCol, endCol, strict)
  }

  function SliceByColumn(line: Str, startCol: int, length: int, strict: bool, graphemes: Segmenter): Str {
    if length <= 0 then []
    else
      var spans := Spans(line, 0, graphemes);
      Sliced(line, spans, |spans|, startCol, startCol + length, strict).text
  }

  /** Past the end column nothing is added. */
  lemma {:induction false} SlicedStops(line: Str, spans: seq<Span>, i: nat, k: nat, startCol: int, endCol: int, strict: bool)
    requires i <= k <= |spans| && startCol < endCol <= Column(spans, i)
    ensures Sliced(line, spans, k, startCol, endCol, strict) == Sliced(line, spans, i, startCol, endCol, strict)
    decreases k
  {
    hide Column, TakeSpan, Sliced;
    if i < k {
      ColumnsGrow(spans, i, k - 1);
      SlicedStops(line, spans, i, k - 1, startCol, endCol, strict);
      SlicedStep(line, spans, k - 1, startCol, endCol, strict);
      TakeNothing(Sliced(line, spans, k - 1, startCol, endCol, strict), spans[k - 1], SpanText(line, spans[k - 1]),
                  Column(spans, k - 1), startCol, endCol, strict);
    }
  }

  lemma SlicedStep(line: Str, spans: seq<Span>, k: nat, startCol: int, endCol: int, strict: bool)
    requires k < |spans|
    ensures Sliced(line, spans, k + 1, startCol, endCol, strict) ==
            TakeSpan(Sliced(line, spans, k, startCol, endCol, strict), spans[k], SpanText(line, spans[k]), Column(spans, k),
                     startCol, endCol, strict)
  {}

  lemma TakeNothing(p: Slice, s: Span, text: Str, col: nat, startCol: int, endCol: int, strict: bool)
    requires startCol < endCol <= col
    ensures TakeSpan(p, s, text, col, startCol, endCol, strict) == p
  {}

  // ------------------------------------------------------------------ a slice from the first column

  /** The graphemes among the first `k` spans. */
  function GlyphsOf(line: Str, spans: seq<Span>, k: nat): seq<Grapheme>
    requires k <= |spans|
  {
    if k == 0 then []
    else GlyphsOf(line, spans, k - 1) +
         if spans[k - 1].Code? then [] else [Grapheme(SpanText(line, spans[k - 1]), spans[k - 1].width)]
  }

  lemma {:induction false} GlyphsWidth(line: Str, spans: seq<Span>, k: nat)
    requires k <= |spans|
    ensures TotalWidth(GlyphsOf(line, spans, k)) == Column(spans, k)
  {
    if k > 0 {
      GlyphsWidth(line, spans, k - 1);
      var before, all := GlyphsOf(line, spans, k - 1), GlyphsOf(line, spans, k);
      if spans[k - 1].Glyph? {
        assert all[..|all| - 1] == before;
      } else {
        assert all == before;
      }
    }
  }

  lemma {:induction false} GlyphsPrefix(line: Str, spans: seq<Span>, i: nat, k: nat)
    requires i <= k <= |spans|
    ensures GlyphsOf(line, spans, i) <= GlyphsOf(line, spans, k)
    decreases k
  {
    if i < k { GlyphsPrefix(line, spans, i, k - 1); }
  }

  lemma {:induction false} JoinedSnoc(gs: seq<Grapheme>, g: Grapheme)
    ensures Joined(gs + [g]) == Joined(gs) + g.text
  {
    if gs == [] {
      var none: seq<Grapheme> := [];
      assert gs + [g] == [g] && [g][1..] == none;
    } else {
      assert (gs + [g])[1..] == gs[1..] + [g];
      JoinedSnoc(gs[1..], g);
    }
  }

  /** Cut where a reader stands, a text is stripped piece by piece. */
  lemma {:induction false} StrippedInHalves(text: Str, i: nat, p: nat)
    requires Boundary(text, i, p) && i <= p <= |text|
    ensures Stripped(text, i) == Stripped(text[..p], i) + Stripped(text, p)
    decreases |text| - i
  {
    hide AnsiEndAt;
    if i < p {
      ScanOfPrefix(text, p, i);
      match AnsiEndAt(text, i) {
        case Some(end) => StrippedInHalves(text, end, p);
        case None => StrippedInHalves(text, i + 1, p);
      }
    }
  }

  lemma {:induction false} StrippedRun(text: Str, i: nat)
    requires i <= |text| && forall j | i <= j < |text| :: AnsiEndAt(text, j) == None
    ensures Stripped(text, i) == text[i..]
    decreases |text| - i
  {
    hide AnsiEndAt;
    if i < |text| {
      StrippedRun(text, i + 1);
      assert text[i..] == [text[i]] + text[i + 1..];
    }
  }

  /** Stripping the line up to a span leaves the texts of the graphemes before it. */
  lemma {:induction false} StrippedUpTo(line: Str, graphemes: Segmenter, k: nat)
    requires IsSegmenter(graphemes) && k <= |Spans(line, 0, graphemes)|
    requires StartOf(Spans(line, 0, graphemes), k, |line|) <= |line|
    ensures Stripped(line[..StartOf(Spans(line, 0, graphemes), k, |line|)], 0) ==
            Joined(GlyphsOf(line, Spans(line, 0, graphemes), k))
  {
    hide Spans, Stripped, Boundary, AnsiEndAt, ReadsAs;
    var spans := Spans(line, 0, graphemes);
    LineTiled(line, graphemes);
    if k == 0 {
      StrippedRun([], 0);
      assert line[..0] == [];
    } else {
      var s := spans[k - 1];
      StartsAreBoundaries(line, graphemes, k);
      StartsAreBoundaries(line, graphemes, k - 1);
      StrippedUpTo(line, graphemes, k - 1);
      StrippedSpan(line, s);
      if s.Glyph? {
        JoinedSnoc(GlyphsOf(line, spans, k - 1), Grapheme(SpanText(line, s), s.width));
      } else {
        assert GlyphsOf(line, spans, k) == GlyphsOf(line, spans, k - 1);
      }
    }
  }

  lemma StrippedSpan(line: Str, s: Span)
    requires s.start < s.end <= |line| && Boundary(line, 0, s.start) && ReadsAs(line, s)
    ensures Stripped(line[..s.end], 0) == Stripped(line[..s.start], 0) + if s.Code? then [] else SpanText(line, s)
  {
    hide Boundary, AnsiEndAt;
    var text := line[..s.end];
    BoundaryOfPrefix(line, s.end, 0, s.start);
    StrippedInHalves(text, 0, s.start);
    assert text[..s.start] == line[..s.start];
    ScanOfPrefix(line, s.end, s.start);
    if s.Glyph? {
      forall j | s.start <= j < s.end
        ensures AnsiEndAt(text, j) == None
      {
        ScanOfPrefix(line, s.end, j);
      }
      StrippedRun(text, s.start);
      assert text[s.start..] == line[s.start..s.end];
    }
  }

  /** A strict slice from column 0 is the line up to some span, and that span begins within the length. */
  lemma {:induction false} SliceIsPrefix(line: Str, graphemes: Segmenter, length: nat, k: nat) returns (j: nat)
    requires IsSegmenter(graphemes) && 0 < length && k <= |Spans(line, 0, graphemes)|
    ensures j <= k && StartOf(Spans(line, 0, graphemes), j, |line|) <= |line|
    ensures Sliced(line, Spans(line, 0, graphemes), k, 0, length, true) ==
            Slice(line[..StartOf(Spans(line, 0, graphemes), j, |line|)], Column(Spans(line, 0, graphemes), j), [])
    ensures Column(Spans(line, 0, graphemes), j) <= length && (j > 0 ==> Column(Spans(line, 0, graphemes), j - 1) < length)
    ensures j < k ==> Column(Spans(line, 0, graphemes), k) >= length
    ensures j < k ==> Column(Spans(line, 0, graphemes), j) >= length || Column(Spans(line, 0, graphemes), j + 1) > length
  {
    hide Spans, TakeSpan, Sliced, IsSegmenter, SpanText;
    var spans := Spans(line, 0, graphemes);
    if k == 0 {
      j := 0;
      SlicedNone(line, graphemes, length);
    } else {
      j := SliceIsPrefix(line, graphemes, length, k - 1);
      NextSpanHolds(line, graphemes, k - 1);
      SlicedStep(line, spans, k - 1, 0, length, true);
      var s, col := spans[k - 1], Column(spans, k - 1);
      if j == k - 1 && col < length && (s.Code? || col + s.width <= length) {
        j := k;
        TakePrefix(line, s, col, length);
      } else {
        TakeNoSpan(Sliced(line, spans, k - 1, 0, length, true), s, SpanText(line, s), col, length);
      }
    }
  }

  lemma SlicedNone(line: Str, graphemes: Segmenter, length: nat)
    requires IsSegmenter(graphemes)
    ensures StartOf(Spans(line, 0, graphemes), 0, |line|) == 0 && line[..0] == []
    ensures Sliced(line, Spans(line, 0, graphemes), 0, 0, length, true) == Slice([], 0, [])
  {
    hide Spans;
    LineTiled(line, graphemes);
  }

  lemma TakePrefix(line: Str, s: Span, col: nat, length: nat)
    requires s.start < s.end <= |line| && col < length && (s.Code? || col + s.width <= length)
    ensures TakeSpan(Slice(line[..s.start], col, []), s, SpanText(line, s), col, 0, length, true) ==
            Slice(line[..s.end], col + s.Width(), [])
  {
    assert line[..s.end] == line[..s.start] + line[s.start..s.end];
    assert line[..s.start] + [] == line[..s.start];
  }

  lemma TakeNoSpan(p: Slice, s: Span, text: Str, col: nat, length: nat)
    requires col >= length || (s.Glyph? && col + s.width > length)
    ensures TakeSpan(p, s, text, col, 0, length, true) == p
  {}

  /** The codes of the line stand between graphemes: without them it is cut into the same graphemes. */
  ghost predicate CodesBetweenGraphemes(line: Str, graphemes: Segmenter) {
    graphemes(Stripped(line, 0)) == GlyphsOf(line, Spans(line, 0, graphemes), |Spans(line, 0, graphemes)|)
  }

  /** A line without tabs, whose codes stand between its graphemes, is cut to a text that fits. */
  lemma SlicesFit(line: Str, width: nat, graphemes: Segmenter)
    requires IsSegmenter(graphemes) && AsciiIsPlain(graphemes) && IsPrefixStable(graphemes)
    requires TAB !in line && CodesBetweenGraphemes(line, graphemes)
    ensures VisibleWidth(SliceByColumn(line, 0, width, true, graphemes), graphemes) <= width
  {
    hide Spans, Stripped, Sliced, Boundary, VisibleWidth, IsPrintableAscii, AsciiIsPlain, IsSegmenter, GlyphsOf, TotalWidth, Joined;
    var spans := Spans(line, 0, graphemes);
    if width == 0 {
      VisibleWidthOfNothing(graphemes);
    } else {
      var j := SliceIsPrefix(line, graphemes, width, |spans|);
      var cut := line[..StartOf(spans, j, |line|)];
      assert forall u | u in cut :: u in line;
      VisibleWidthWithoutTabs(cut, graphemes);
      StrippedUpTo(line, graphemes, j);
      GlyphsPrefix(line, spans, j, |spans|);
      GlyphsWidth(line, spans, j);
      var all, few := GlyphsOf(line, spans, |spans|), GlyphsOf(line, spans, j);
      assert all == graphemes(Stripped(line, 0)) && few == all[..|few|];
    }
  }

  lemma VisibleWidthOfNothing(graphemes: Segmenter)
    ensures VisibleWidth([], graphemes) == 0
  {}

  // ------------------------------------------------------------------ lines with tabs

  function Copies(u: Unit, n: nat): (s: Str)
    ensures |s| == n && forall i | 0 <= i < n :: s[i] == u
  {
    seq(n, _ => u)
  }

  /** Tabs are graphemes of their own, and as control characters they count for no column. */
  predicate AreTabsThenOnes(gs: seq<Grapheme>, n: nat, t: Str) {
    && |gs| == n + |t|
    && (forall i | 0 <= i < n :: gs[i] == Grapheme([TAB], 0))
    && forall i | 0 <= i < |t| :: gs[n + i] == Grapheme([t[i]], 1)
  }

  lemma {:induction false} ExpandedTabs(n: nat, t: Str)
    requires TAB !in t
    ensures ExpandTabs(Copies(TAB, n) + t) == Copies(SPACE, 3 * n) + t
    decreases n
  {
    var s := Copies(TAB, n) + t;
    if n == 0 {
      assert s == t && Copies(SPACE, 0) + t == t;
      NothingExpanded(t);
    } else {
      assert s[0] == TAB && s[1..] == Copies(TAB, n - 1) + t;
      ExpandedTabs(n - 1, t);
      assert [SPACE, SPACE, SPACE] + (Copies(SPACE, 3 * (n - 1)) + t) == Copies(SPACE, 3 * n) + t;
    }
  }

  lemma {:induction false} TabColumns(spans: seq<Span>, n: nat, k: nat)
    requires n <= |spans| && k <= |spans| && forall i | 0 <= i < |spans| :: spans[i].Width() == if i < n then 0 else 1
    ensures Column(spans, k) == if k <= n then 0 else k - n
    decreases k
  {
    if k > 0 { TabColumns(spans, n, k - 1); }
  }

  lemma {:induction false} GlyphSpansWidths(gs: seq<Grapheme>, at: nat)
    ensures forall i | 0 <= i < |gs| :: GlyphSpans(gs, at)[i].Glyph? && GlyphSpans(gs, at)[i].width == gs[i].width
  {
    if gs != [] { GlyphSpansWidths(gs[1..], at + |gs[0].text|); }
  }

  lemma {:induction false} WithoutCodes(line: Str, i: nat)
    requires i <= |line| && ESC !in line
    ensures TextEnd(line, i) == |line|
    decreases |line| - i
  {
    if i < |line| {
      assert line[i] in line;
      WithoutCodes(line, i + 1);
    }
  }

  lemma PlainSpans(line: Str, graphemes: Segmenter)
    requires line != [] && ESC !in line
    ensures Spans(line, 0, graphemes) == GlyphSpans(graphemes(line), 0)
  {
    hide GlyphSpans;
    WithoutCodes(line, 0);
    assert line[0] in line && line[0..|line|] == line;
    assert Spans(line, |line|, graphemes) == [];
    assert GlyphSpans(graphemes(line), 0) + [] == GlyphSpans(graphemes(line), 0);
  }

  /**
   * The slice counts a tab as no column, the visible width as three: `n` tabs before a text that fills the width are all
   * kept, and the cut line is 3n columns too wide.
   */
  lemma TabsAreKept(n: nat, t: Str, graphemes: Segmenter)
    requires IsSegmenter(graphemes) && AsciiIsPlain(graphemes) && t != [] && IsPrintableAscii(t)
    requires AreTabsThenOnes(graphemes(Copies(TAB, n) + t), n, t)
    ensures SliceByColumn(Copies(TAB, n) + t, 0, |t|, true, graphemes) == Copies(TAB, n) + t
    ensures VisibleWidth(Copies(TAB, n) + t, graphemes) == 3 * n + |t|
  {
    hide Spans, Sliced, IsSegmenter, GlyphSpans;
    var line := Copies(TAB, n) + t;
    assert forall u | u in line :: u != ESC;
    PlainSpans(line, graphemes);
    GlyphSpansWidths(graphemes(line), 0);
    var spans, gs := Spans(line, 0, graphemes), graphemes(line);
    forall i | 0 <= i < |spans|
      ensures spans[i].Width() == if i < n then 0 else 1
    {
      assert i >= n ==> gs[n + (i - n)] == Grapheme([t[i - n]], 1);
    }
    var j := SliceIsPrefix(line, graphemes, |t|, |spans|);
    TabColumns(spans, n, j);
    TabColumns(spans, n, if j < |spans| then j + 1 else j);
    assert j == |spans| && line[..|line|] == line;
    TabsAreWide(n, t, graphemes);
  }

  lemma TabsAreWide(n: nat, t: Str, graphemes: Segmenter)
    requires AsciiIsPlain(graphemes) && t != [] && IsPrintableAscii(t)
    ensures VisibleWidth(Copies(TAB, n) + t, graphemes) == 3 * n + |t|
  {
    hide Stripped, ExpandTabs, TotalWidth;
    var line, wide := Copies(TAB, n) + t, Copies(SPACE, 3 * n) + t;
    if n == 0 {
      assert line == t;
    } else {
      assert line[0] == TAB;
      ExpandedTabs(n, t);
      NothingStripped(wide, 0);
      assert wide[0..] == wide && IsPrintableAscii(wide);
      OnesWidth(graphemes(wide), wide);
    }
  }

  // ------------------------------------------------------------------ the scan

  /** After the first `k` spans, up to position `i`, the slice is `p` and the column `col`. */
  ghost predicate HasSliced(line: Str, graphemes: Segmenter, k: nat, startCol: int, endCol: int, strict: bool, p: Slice,
                            col: nat) {
    && k <= |Spans(line, 0, graphemes)|
    && p == Sliced(line, Spans(line, 0, graphemes), k, startCol, endCol, strict)
    && col == Column(Spans(line, 0, graphemes), k)
  }

  lemma SpanSliced(line: Str, graphemes: Segmenter, k: nat, startCol: int, endCol: int, strict: bool, p: Slice, col: nat)
    requires HasSliced(line, graphemes, k, startCol, endCol, strict, p, col) && k < |Spans(line, 0, graphemes)|
    ensures var s := Spans(line, 0, graphemes)[k];
            HasSliced(line, graphemes, k + 1, startCol, endCol, strict,
                      TakeSpan(p, s, SpanText(line, s), col, startCol, endCol, strict), col + s.Width())
  {
    hide Spans, TakeSpan;
  }

  lemma SliceEnds(line: Str, graphemes: Segmenter, k: nat, startCol: int, endCol: int, strict: bool, p: Slice, col: nat,
                  i: nat)
    requires HasSliced(line, graphemes, k, startCol, endCol, strict, p, col) && startCol < endCol
    requires col >= endCol || (StandsAt(line, graphemes, k, i) && i == |line|)
    ensures var spans := Spans(line, 0, graphemes); p == Sliced(line, spans, |spans|, startCol, endCol, strict)
  {
    hide Sliced;
    var spans := Spans(line, 0, graphemes);
    if col >= endCol {
      SlicedStops(line, spans, k, |spans|, startCol, endCol, strict);
    } else {
      assert spans[k..] == [] && k == |spans|;
    }
  }

  lemma NextGlyph(line: Str, graphemes: Segmenter, k: nat, gs: seq<Grapheme>, pos: nat, end: nat)
    requires IsSegmenter(graphemes) && WithinRun(line, graphemes, k, gs, pos, end) && gs != []
    ensures pos + |gs[0].text| <= |line| && k < |Spans(line, 0, graphemes)|
    ensures Spans(line, 0, graphemes)[k] == Glyph(pos, pos + |gs[0].text|, gs[0].width)
    ensures SpanText(line, Spans(line, 0, graphemes)[k]) == gs[0].text
    ensures WithinRun(line, graphemes, k + 1, gs[1..], pos + |gs[0].text|, end)
  {
    hide Spans, WithinRun;
    RunHead(line, graphemes, k, gs, pos, end);
    RunTail(line, graphemes, k, gs, pos, end);
  }

  /** The graphemes of one run, up to the one that reaches the end column. */
  method SliceRun(line: Str, graphemes: Segmenter, startCol: int, endCol: int, strict: bool, i: nat, textEnd: nat,
                  start: Slice, startAt: nat, ghost k: nat)
    returns (p: Slice, col: nat, ghost kNext: nat)
    requires IsSegmenter(graphemes) && i < textEnd <= |line|
    requires WithinRun(line, graphemes, k, graphemes(line[i..textEnd]), i, textEnd)
    requires HasSliced(line, graphemes, k, startCol, endCol, strict, start, startAt)
    ensures HasSliced(line, graphemes, kNext, startCol, endCol, strict, p, col)
    ensures col < endCol ==> StandsAt(line, graphemes, kNext, textEnd)
  {
    hide Spans, HasSliced, StandsAt, WithinRun, IsSegmenter, AnsiEndAt;
    var gs := graphemes(line[i..textEnd]);
    p, col, kNext := start, startAt, k;
    ghost var pos: nat := i;
    var j := 0;
    while j < |gs| && col < endCol
      invariant 0 <= j <= |gs|
      invariant HasSliced(line, graphemes, kNext, startCol, endCol, strict, p, col)
      invariant col < endCol ==> WithinRun(line, graphemes, kNext, gs[j..], pos, textEnd)
    {
      NextGlyph(line, graphemes, kNext, gs[j..], pos, textEnd);
      assert gs[j..][0] == gs[j] && gs[j..][1..] == gs[j + 1..];
      SpanSliced(line, graphemes, kNext, startCol, endCol, strict, p, col);
      var w := gs[j].width;
      if startCol <= col < endCol && (!strict || col + w <= endCol) {
        p := Slice(p.text + p.pendingAnsi + gs[j].text, p.width + w, []);
      }
      pos, kNext, j, col := pos + |gs[j].text|, kNext + 1, j + 1, col + w;
    }
    if col < endCol {
      assert gs[j..] == [];
      RunEnds(line, graphemes, kNext, pos, textEnd);
    }
  }

  /** The text between two columns, with the codes in front of it, and the columns it takes. */
  method SliceWithWidth(line: Str, startCol: int, length: int, strict: bool, graphemes: Segmenter)
    returns (text: Str, width: nat)
    requires IsSegmenter(graphemes)
    ensures text == SliceByColumn(line, startCol, length, strict, graphemes)
    ensures length <= 0 ==> width == 0
    ensures length > 0 ==>
              width == Sliced(line, Spans(line, 0, graphemes), |Spans(line, 0, graphemes)|, startCol, startCol + length, strict).width
  {
    hide Spans, HasSliced, StandsAt, WithinRun, IsSegmenter, AnsiEndAt, TextEnd, Process, ReadFrom;
    if length <= 0 {
      return [], 0;
    }
    var endCol := startCol + length;
    var p, col: nat, i: nat := Slice([], 0, []), 0, 0;
    var extractor := new AnsiCodeExtractor(line);
    ghost var k := 0;
    FirstStands(line, graphemes);
    NothingSliced(line, graphemes, startCol, endCol, strict);
    var stopped := false;
    while i < |line| && !stopped
      invariant fresh(extractor) && extractor.Valid() && extractor.text == line
      invariant i <= |line|
      invariant HasSliced(line, graphemes, k, startCol, endCol, strict, p, col)
      invariant if stopped then col >= endCol else StandsAt(line, graphemes, k, i)
      decreases |line| - i
    {
      var end := extractor.EndAt(i);
      if end.Some? {
        var code := line[i..end.value];
        CodeComesNext(line, graphemes, k, i);
        SpanSliced(line, graphemes, k, startCol, endCol, strict, p, col);
        if startCol <= col < endCol {
          p := p.(text := p.text + code);
        } else if col < startCol {
          p := p.(pendingAnsi := p.pendingAnsi + code);
        }
        i, k := end.value, k + 1;
      } else {
        RunBegins(line, graphemes, k, i);
        var textEnd := FindTextEnd(line, i, extractor);
        p, col, k := SliceRun(line, graphemes, startCol, endCol, strict, i, textEnd, p, col, k);
        i := textEnd;
        stopped := col >= endCol;
      }
    }
    SliceEnds(line, graphemes, k, startCol, endCol, strict, p, col, i);
    text, width := p.text, p.width;
  }

  lemma NothingSliced(line: Str, graphemes: Segmenter, startCol: int, endCol: int, strict: bool)
    ensures HasSliced(line, graphemes, 0, startCol, endCol, strict, Slice([], 0, []), 0)
  {}
}
