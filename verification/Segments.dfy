/** Splitting a line around an overlay (packages/tui/src/utils.ts:1250-1322), without losing its styling. */
module Segments {
  import opened AnsiScanner
  import opened AnsiStyle
  import opened Strings

  // ------------------------------------------------------------------ a line as codes and graphemes

  /** What the platform's segmenter and width table say of a run of plain text: both are left open. */
  datatype Grapheme = Grapheme(text: Str, width: nat)

  type Segmenter = Str -> seq<Grapheme>

  function Joined(gs: seq<Grapheme>): Str {
    if gs == [] then [] else gs[0].text + Joined(gs[1..])
  }

  /** A segmenter cuts a text into non-empty pieces and loses nothing. */
  ghost predicate IsSegmenter(graphemes: Segmenter) {
    forall t: Str :: Joined(graphemes(t)) == t && forall g | g in graphemes(t) :: g.text != []
  }

  /** A stretch of the line: an escape sequence, or one grapheme with its width. */
  datatype Span = Code(start: nat, end: nat) | Glyph(start: nat, end: nat, width: nat) {
    function Width(): nat { if Code? then 0 else width }
  }

  /** The end of the plain text that begins at `i`. */
  function TextEnd(line: Str, i: nat): (end: nat)
    requires i <= |line|
    ensures i <= end <= |line|
    ensures forall j | i <= j < end :: AnsiEndAt(line, j) == None
    ensures end < |line| ==> AnsiEndAt(line, end).Some?
    decreases |line| - i
  {
    if i == |line| || AnsiEndAt(line, i).Some? then i else TextEnd(line, i + 1)
  }

  function GlyphSpans(gs: seq<Grapheme>, at: nat): (spans: seq<Span>)
    ensures |spans| == |gs|
  {
    if gs == [] then []
    else [Glyph(at, at + |gs[0].text|, gs[0].width)] + GlyphSpans(gs[1..], at + |gs[0].text|)
  }

  function Spans(line: Str, i: nat, graphemes: Segmenter): seq<Span>
    decreases |line| - i
  {
    if i >= |line| then []
    else
      match AnsiEndAt(line, i)
      case Some(end) => [Code(i, end)] + Spans(line, end, graphemes)
      case None =>
        var end := TextEnd(line, i);
        if end <= i then [] else GlyphSpans(graphemes(line[i..end]), i) + Spans(line, end, graphemes)
  }

  /** The column in which the `k`-th span begins. */
  function Column(spans: seq<Span>, k: nat): nat
    requires k <= |spans|
  {
    if k == 0 then 0 else Column(spans, k - 1) + spans[k - 1].Width()
  }

  /** Where the `k`-th span begins, in spans that go up to `to`. */
  function StartOf(spans: seq<Span>, k: nat, to: nat): nat
    requires k <= |spans|
  {
    if k == |spans| then to else spans[k].start
  }

  lemma {:induction false} ColumnsGrow(spans: seq<Span>, i: nat, j: nat)
    requires i <= j <= |spans|
    ensures Column(spans, i) <= Column(spans, j)
    decreases j
  {
    if i < j { ColumnsGrow(spans, i, j - 1); }
  }

  // ------------------------------------------------------------------ which spans are kept

  datatype Window = Window(beforeEnd: int, afterStart: int, afterLen: int, strictAfter: bool) {
    function AfterEnd(): int { afterStart + afterLen }

    /** The column at which the scan gives up. */
    function Stop(): int { if afterLen <= 0 then beforeEnd else AfterEnd() }
  }

  /** The scan looks at every grapheme up to the one that reaches the stop column. */
  predicate Reached(spans: seq<Span>, j: nat, w: Window)
    requires j < |spans|
  {
    spans[j].Glyph? && (Column(spans, j) < w.Stop() || forall g | 0 <= g < j :: spans[g].Code?)
  }

  predicate InBefore(spans: seq<Span>, j: nat, w: Window)
    requires j < |spans|
  {
    Reached(spans, j, w) && Column(spans, j) < w.beforeEnd
  }

  predicate InAfter(spans: seq<Span>, j: nat, w: Window)
    requires j < |spans|
  {
    && Reached(spans, j, w) && w.beforeEnd <= Column(spans, j)
    && w.afterStart <= Column(spans, j) < w.AfterEnd()
    && (w.strictAfter ==> Column(spans, j) + spans[j].width <= w.AfterEnd())
  }

  /** At `b` the after segment cannot go on. */
  predicate Closes(spans: seq<Span>, b: nat, w: Window)
    requires b < |spans|
  {
    || Column(spans, b) >= w.AfterEnd()
    || (spans[b].Glyph? && w.strictAfter && Column(spans, b) + spans[b].width > w.AfterEnd())
  }

  /** The first `n` spans go before the overlay, those from `a` to `b` after it. */
  datatype Cut = Cut(n: nat, a: nat, b: nat)

  /** Among the first `k` spans, `c` keeps exactly the graphemes that belong, in stretches that begin (and, before the
      overlay, end) with a grapheme, and all the codes between them up to where the after segment closes. */
  ghost predicate IsCut(spans: seq<Span>, k: nat, w: Window, c: Cut) {
    && c.n <= k <= |spans| && c.a <= c.b <= k
    && (c.n > 0 ==> spans[c.n - 1].Glyph?)
    && (c.a < c.b ==> spans[c.a].Glyph?)
    && (c.a < c.b < k ==> Closes(spans, c.b, w))
    && (forall j | c.a <= j < c.b :: !Closes(spans, j, w))
    && (forall j | 0 <= j < k && spans[j].Glyph? :: j < c.n <==> InBefore(spans, j, w))
    && (forall j | 0 <= j < k && spans[j].Glyph? :: c.a <= j < c.b <==> InAfter(spans, j, w))
  }

  lemma KeepBefore(spans: seq<Span>, k: nat, w: Window, c: Cut)
    requires IsCut(spans, k, w, c) && k < |spans| && InBefore(spans, k, w)
    ensures IsCut(spans, k + 1, w, Cut(k + 1, c.a, c.b))
  {
    hide Column;
    forall j | 0 <= j < k && spans[j].Glyph?
      ensures InBefore(spans, j, w)
    {
      ColumnsGrow(spans, j, k);
    }
    ColumnsGrow(spans, c.a, k);
    assert c.a < c.b ==> InAfter(spans, c.a, w);
  }

  lemma KeepAfter(spans: seq<Span>, k: nat, w: Window, c: Cut)
    requires IsCut(spans, k, w, c) && k < |spans| && InAfter(spans, k, w)
    requires c.a < c.b ==> c.b == k
    ensures IsCut(spans, k + 1, w, if c.a < c.b then c.(b := k + 1) else c.(a := k, b := k + 1))
  {
    hide Column;
  }

  lemma KeepCode(spans: seq<Span>, k: nat, w: Window, c: Cut)
    requires IsCut(spans, k, w, c) && k < |spans| && spans[k].Code? && c.a < c.b == k && Column(spans, k) < w.AfterEnd()
    ensures IsCut(spans, k + 1, w, c.(b := k + 1))
  {
    hide Column, InBefore, InAfter;
  }

  /** While columns are left in the window, the after segment is still open. */
  lemma StillOpen(spans: seq<Span>, k: nat, w: Window, c: Cut)
    requires IsCut(spans, k, w, c) && c.a < c.b && Column(spans, k) < w.AfterEnd()
    ensures c.b == k
  {
    hide InBefore, InAfter;
    ColumnsGrow(spans, c.b, k);
    ColumnsGrow(spans, if c.b < k then c.b + 1 else k, k);
  }

  lemma StartedWithin(spans: seq<Span>, k: nat, w: Window, c: Cut)
    requires IsCut(spans, k, w, c) && c.a < c.b
    ensures w.beforeEnd <= Column(spans, k) && w.afterStart <= Column(spans, k)
  {
    hide Column;
    assert InAfter(spans, c.a, w);
    ColumnsGrow(spans, c.a, k);
  }

  /** Once a grapheme reached the stop column, nothing further is kept. */
  lemma Stopped(spans: seq<Span>, k: nat, w: Window, c: Cut)
    requires IsCut(spans, k, w, c)
    requires 0 < k && spans[k - 1].Glyph? && Column(spans, k) >= w.Stop()
    ensures IsCut(spans, |spans|, w, c)
  {
    hide Column;
    forall j | k <= j < |spans| && spans[j].Glyph?
      ensures !Reached(spans, j, w)
    {
      ColumnsGrow(spans, k, j);
    }
    if c.a < c.b {
      assert InAfter(spans, c.a, w);
    }
  }

  // ------------------------------------------------------------------ where a reader stands

  /** Reading from `i`, a reader comes to stand exactly at `p`. */
  predicate Boundary(line: Str, i: nat, p: nat)
    decreases |line| - i
  {
    if i >= p || i >= |line| then i == p
    else
      match AnsiEndAt(line, i)
      case Some(end) => Boundary(line, end, p)
      case None => Boundary(line, i + 1, p)
  }

  lemma {:induction false} BoundaryStep(line: Str, i: nat, p: nat)
    requires Boundary(line, i, p) && p < |line|
    ensures Boundary(line, i, match AnsiEndAt(line, p) case Some(end) => end case None => p + 1)
    decreases |line| - i
  {
    hide AnsiEndAt;
    if i < p {
      match AnsiEndAt(line, i) {
        case Some(end) => BoundaryStep(line, end, p);
        case None => BoundaryStep(line, i + 1, p);
      }
    }
  }

  lemma {:induction false} BoundaryRun(line: Str, i: nat, p: nat, q: nat)
    requires Boundary(line, i, p) && p <= q <= |line|
    requires forall j | p <= j < q :: AnsiEndAt(line, j) == None
    ensures Boundary(line, i, q)
    decreases q - p
  {
    hide AnsiEndAt, Boundary;
    if p < q {
      BoundaryStep(line, i, p);
      BoundaryRun(line, i, p + 1, q);
    }
  }

  /** The characters of a text with the style each is shown in. */
  function Styled(text: Str, i: nat, st: Style): seq<(Unit, Style)>
    decreases |text| - i
  {
    if i >= |text| then []
    else
      match AnsiEndAt(text, i)
      case Some(end) => Styled(text, end, Process(text[i..end], st))
      case None => [(text[i], st)] + Styled(text, i + 1, st)
  }

  lemma {:induction false} StyledShift(text: Str, from: nat, i: nat, st: Style)
    requires from <= i <= |text|
    ensures Styled(text, i, st) == Styled(text[from..], i - from, st)
    decreases |text| - i
  {
    hide AnsiEndAt, Process;
    if i < |text| {
      ScanLooksForward(text, from, i);
      match AnsiEndAt(text, i) {
        case Some(end) =>
          assert text[from..][i - from..end - from] == text[i..end];
          StyledShift(text, from, end, Process(text[i..end], st));
        case None =>
          StyledShift(text, from, i + 1, st);
      }
    }
  }

  /** A text cut where a reader stands reads as its two halves, the second in the style the first leaves behind. */
  lemma {:induction false} ReadInHalves(text: Str, i: nat, p: nat, st: Style)
    requires Boundary(text, i, p) && i <= p <= |text|
    ensures Styled(text, i, st) == Styled(text[..p], i, st) + Styled(text, p, ReadFrom(text[..p], i, st))
    ensures ReadFrom(text, i, st) == ReadFrom(text, p, ReadFrom(text[..p], i, st))
    decreases |text| - i
  {
    hide AnsiEndAt, Process;
    if i < p {
      ScanOfPrefix(text, p, i);
      match AnsiEndAt(text, i) {
        case Some(end) =>
          assert text[..p][i..end] == text[i..end];
          ReadInHalves(text, end, p, Process(text[i..end], st));
        case None =>
          ReadInHalves(text, i + 1, p, st);
      }
    } else {
      assert Styled(text[..p], i, st) == [];
    }
  }

  lemma {:induction false} BoundaryShift(text: Str, from: nat, i: nat, p: nat)
    requires from <= i <= |text| && Boundary(text, i, p)
    ensures from <= p && Boundary(text[from..], i - from, p - from)
    decreases |text| - i
  {
    hide AnsiEndAt;
    if i < p && i < |text| {
      ScanLooksForward(text, from, i);
      match AnsiEndAt(text, i) {
        case Some(end) => BoundaryShift(text, from, end, p);
        case None => BoundaryShift(text, from, i + 1, p);
      }
    }
  }

  lemma {:induction false} BoundaryBetween(text: Str, i: nat, p: nat, q: nat)
    requires Boundary(text, i, p) && Boundary(text, i, q) && p <= q
    ensures Boundary(text, p, q)
    decreases |text| - i
  {
    hide AnsiEndAt;
    if i < p && i < |text| {
      match AnsiEndAt(text, i) {
        case Some(end) => BoundaryBetween(text, end, p, q);
        case None => BoundaryBetween(text, i + 1, p, q);
      }
    }
  }

  lemma StyledCode(code: Str, t: Str, st: Style)
    requires IsCode(code)
    ensures Styled(code + t, 0, st) == Styled(t, 0, Process(code, st))
  {
    hide AnsiEndAt, Process;
    var text := code + t;
    ScanIsLocal(code, 0, text, 0);
    assert text[0..|code|] == code && text[|code|..] == t;
    StyledShift(text, |code|, |code|, Process(code, st));
  }

  /** The printed codes of a style show no character, and hand the style on. */
  lemma CodesAreInvisible(st: Style, t: Str)
    requires Coherent(st)
    ensures Styled(ActiveCodes(st) + t, 0, BLANK) == Styled(t, 0, st)
  {
    hide IsCode, Process, Styled, SgrCodes, PrintSgr, LinkText;
    var sgr, link, plain := PrintSgr(SgrCodes(st)), LinkText(st), st.(link := None);
    PrintedParts(st);
    assert ActiveCodes(st) + t == sgr + (link + t);
    if sgr == [] {
      assert sgr + (link + t) == link + t;
    } else {
      StyledCode(sgr, link + t, BLANK);
    }
    if link == [] {
      assert link + t == t;
    } else {
      StyledCode(link, t, plain);
    }
  }

  /** A stretch of a line between two points where a reader stands, read in the style the line has there, shows what it
      shows in the line. */
  lemma StretchKeepsStyle(line: Str, p: nat, q: nat)
    requires p <= q <= |line| && Boundary(line, 0, p) && Boundary(line, 0, q)
    ensures var whole, before := Styled(line, 0, BLANK), Styled(line[..p], 0, BLANK);
            var part := Styled(line[p..q], 0, ReadFrom(line[..p], 0, BLANK));
            |before| + |part| <= |whole| && whole[..|before|] == before && whole[|before|..|before| + |part|] == part
  {
    hide Boundary, Styled, ReadFrom;
    var st := ReadFrom(line[..p], 0, BLANK);
    ReadInHalves(line, 0, p, BLANK);
    StyledShift(line, p, p, st);
    BoundaryBetween(line, 0, p, q);
    BoundaryShift(line, p, p, q);
    var rest := line[p..];
    ReadInHalves(rest, 0, q - p, st);
    assert rest[..q - p] == line[p..q];
  }

  // ------------------------------------------------------------------ the spans of a line

  /** A code span is a code of the line, and no code begins inside a grapheme's span. */
  ghost predicate ReadsAs(line: Str, s: Span) {
    if s.Code? then AnsiEndAt(line, s.start) == Some(s.end)
    else forall j | s.start <= j < s.end :: AnsiEndAt(line, j) == None
  }

  /** The spans follow one another up to `to`, a reader of the line stands at the beginning of each, and sees it as it is. */
  ghost predicate Tiled(line: Str, spans: seq<Span>, to: nat) {
    forall j | 0 <= j < |spans| ::
      && spans[j].start < spans[j].end == StartOf(spans, j + 1, to)
      && Boundary(line, 0, spans[j].start) && ReadsAs(line, spans[j])
  }

  lemma TiledConcat(line: Str, a: seq<Span>, b: seq<Span>, mid: nat, to: nat)
    requires Tiled(line, a, mid) && Tiled(line, b, to) && StartOf(b, 0, to) == mid
    ensures Tiled(line, a + b, to) && StartOf(a + b, 0, to) == StartOf(a, 0, mid)
  {
    hide Boundary, ReadsAs;
    var both := a + b;
    forall j | 0 <= j < |both|
      ensures both[j].start < both[j].end == StartOf(both, j + 1, to)
      ensures Boundary(line, 0, both[j].start) && ReadsAs(line, both[j])
    {
      if j < |a| {
        assert both[j] == a[j];
        assert StartOf(a, j + 1, mid) == StartOf(both, j + 1, to);
      } else {
        assert both[j] == b[j - |a|];
        assert StartOf(b, j - |a| + 1, to) == StartOf(both, j + 1, to);
      }
    }
  }

  lemma OneTiled(line: Str, s: Span)
    requires s.start < s.end && Boundary(line, 0, s.start) && ReadsAs(line, s)
    ensures Tiled(line, [s], s.end)
  {}

  lemma {:induction false} GlyphSpansTiled(line: Str, gs: seq<Grapheme>, at: nat)
    requires forall g | g in gs :: g.text != []
    requires Boundary(line, 0, at) && at + |Joined(gs)| <= |line|
    requires forall j | at <= j < at + |Joined(gs)| :: AnsiEndAt(line, j) == None
    ensures Tiled(line, GlyphSpans(gs, at), at + |Joined(gs)|)
    ensures StartOf(GlyphSpans(gs, at), 0, at + |Joined(gs)|) == at
  {
    hide Boundary, Tiled, AnsiEndAt;
    if gs == [] {
      assert Tiled(line, [], at) by { NoneTiled(line, at); }
    } else {
      var next := at + |gs[0].text|;
      assert gs[0] in gs;
      assert forall g | g in gs[1..] :: g in gs;
      BoundaryRun(line, 0, at, next);
      GlyphSpansTiled(line, gs[1..], next);
      OneTiled(line, Glyph(at, next, gs[0].width));
      TiledConcat(line, [Glyph(at, next, gs[0].width)], GlyphSpans(gs[1..], next), next, at + |Joined(gs)|);
    }
  }

  lemma NoneTiled(line: Str, to: nat)
    ensures Tiled(line, [], to)
  {}

  lemma {:induction false} SpansTiled(line: Str, i: nat, graphemes: Segmenter)
    requires IsSegmenter(graphemes) && i <= |line| && Boundary(line, 0, i)
    ensures Tiled(line, Spans(line, i, graphemes), |line|)
    ensures StartOf(Spans(line, i, graphemes), 0, |line|) == i
    decreases |line| - i
  {
    hide Boundary, Tiled, AnsiEndAt;
    if i == |line| {
      NoneTiled(line, i);
    } else {
      match AnsiEndAt(line, i) {
        case Some(end) =>
          BoundaryStep(line, 0, i);
          SpansTiled(line, end, graphemes);
          OneTiled(line, Code(i, end));
          TiledConcat(line, [Code(i, end)], Spans(line, end, graphemes), end, |line|);
        case None =>
          var end := TextEnd(line, i);
          var gs := graphemes(line[i..end]);
          BoundaryRun(line, 0, i, end);
          SpansTiled(line, end, graphemes);
          GlyphSpansTiled(line, gs, i);
          TiledConcat(line, GlyphSpans(gs, i), Spans(line, end, graphemes), end, |line|);
      }
    }
  }

  lemma LineTiled(line: Str, graphemes: Segmenter)
    requires IsSegmenter(graphemes)
    ensures Tiled(line, Spans(line, 0, graphemes), |line|)
    ensures StartOf(Spans(line, 0, graphemes), 0, |line|) == 0
  {
    hide Spans;
    SpansTiled(line, 0, graphemes);
  }

  lemma StartsAreBoundaries(line: Str, graphemes: Segmenter, k: nat)
    requires IsSegmenter(graphemes) && k <= |Spans(line, 0, graphemes)|
    ensures StartOf(Spans(line, 0, graphemes), k, |line|) <= |line|
    ensures Boundary(line, 0, StartOf(Spans(line, 0, graphemes), k, |line|))
  {
    hide Spans;
    LineTiled(line, graphemes);
    if k < |Spans(line, 0, graphemes)| {
      StartsGrow(line, Spans(line, 0, graphemes), k, |Spans(line, 0, graphemes)|);
    } else {
      EndIsBoundary(line, 0);
    }
  }

  lemma {:induction false} EndIsBoundary(line: Str, i: nat)
    requires i <= |line|
    ensures Boundary(line, i, |line|)
    decreases |line| - i
  {
    if i < |line| {
      EndIsBoundary(line, match AnsiEndAt(line, i) case Some(end) => end case None => i + 1);
    }
  }

  lemma {:induction false} StartsGrow(line: Str, spans: seq<Span>, i: nat, j: nat)
    requires Tiled(line, spans, |line|) && i <= j <= |spans|
    ensures StartOf(spans, i, |line|) <= StartOf(spans, j, |line|)
    ensures i < j ==> spans[i].end <= StartOf(spans, j, |line|)
    decreases j - i
  {
    hide Boundary, ReadsAs;
    if i < j {
      assert spans[i].start < spans[i].end == StartOf(spans, i + 1, |line|);
      StartsGrow(line, spans, i + 1, j);
    }
  }

  // ------------------------------------------------------------------ what is kept, as text

  function BeforeText(line: Str, spans: seq<Span>, c: Cut): Str
    requires c.n <= |spans| && StartOf(spans, c.n, |line|) <= |line|
  {
    line[..StartOf(spans, c.n, |line|)]
  }

  /** The codes that rebuild the style at `a`, then the line from `a` to `b`. */
  function AfterText(line: Str, spans: seq<Span>, c: Cut): Str
    requires c.a <= c.b <= |spans| && StartOf(spans, c.a, |line|) <= StartOf(spans, c.b, |line|) <= |line|
  {
    if c.a == c.b then []
    else
      var p, q := StartOf(spans, c.a, |line|), StartOf(spans, c.b, |line|);
      ActiveCodes(ReadFrom(line[..p], 0, BLANK)) + line[p..q]
  }

  /** A cut of the spans of `line`. */
  ghost predicate CutsLine(line: Str, graphemes: Segmenter, k: nat, w: Window, c: Cut) {
    IsSegmenter(graphemes) && IsCut(Spans(line, 0, graphemes), k, w, c)
  }

  lemma CutBounds(line: Str, graphemes: Segmenter, k: nat, w: Window, c: Cut)
    requires CutsLine(line, graphemes, k, w, c)
    ensures var spans := Spans(line, 0, graphemes);
            && c.n <= k <= |spans| && StartOf(spans, c.n, |line|) <= |line|
            && c.a <= c.b <= |spans| && StartOf(spans, c.a, |line|) <= StartOf(spans, c.b, |line|) <= |line|
  {
    hide Spans, Boundary, InBefore, InAfter, Closes;
    var spans := Spans(line, 0, graphemes);
    LineTiled(line, graphemes);
    StartsAreBoundaries(line, graphemes, c.n);
    StartsAreBoundaries(line, graphemes, c.b);
    StartsGrow(line, spans, c.a, c.b);
  }

  /** Read from a blank terminal, the text before the overlay shows the first characters of the line, in their style. */
  lemma BeforeKeepsStyle(line: Str, graphemes: Segmenter, w: Window, c: Cut)
    requires CutsLine(line, graphemes, |Spans(line, 0, graphemes)|, w, c)
    ensures CutBoundsHold(line, graphemes, c)
    ensures Styled(BeforeText(line, Spans(line, 0, graphemes), c), 0, BLANK) <= Styled(line, 0, BLANK)
  {
    hide Spans, Boundary, IsCut, Styled, ReadFrom;
    var spans := Spans(line, 0, graphemes);
    CutBounds(line, graphemes, |spans|, w, c);
    StartsAreBoundaries(line, graphemes, c.n);
    ReadInHalves(line, 0, StartOf(spans, c.n, |line|), BLANK);
  }

  ghost predicate CutBoundsHold(line: Str, graphemes: Segmenter, c: Cut) {
    var spans := Spans(line, 0, graphemes);
    && c.n <= |spans| && StartOf(spans, c.n, |line|) <= |line|
    && c.a <= c.b <= |spans| && StartOf(spans, c.a, |line|) <= StartOf(spans, c.b, |line|) <= |line|
  }

  /** Read from a blank terminal, the text after the overlay shows a stretch of the line's characters, each in exactly
      the style (attributes, colours and hyperlink) it has in the line. */
  lemma AfterKeepsStyle(line: Str, graphemes: Segmenter, w: Window, c: Cut)
    requires CutsLine(line, graphemes, |Spans(line, 0, graphemes)|, w, c)
    ensures CutBoundsHold(line, graphemes, c)
    ensures var spans, whole := Spans(line, 0, graphemes), Styled(line, 0, BLANK);
            var skipped := |Styled(line[..StartOf(spans, c.a, |line|)], 0, BLANK)|;
            var after := Styled(AfterText(line, spans, c), 0, BLANK);
            skipped + |after| <= |whole| && whole[skipped..skipped + |after|] == after
  {
    hide Spans, Boundary, IsCut, Styled, ReadFrom, Coherent, ActiveCodes;
    var spans := Spans(line, 0, graphemes);
    CutBounds(line, graphemes, |spans|, w, c);
    StartsAreBoundaries(line, graphemes, c.a);
    StartsAreBoundaries(line, graphemes, c.b);
    var p, q := StartOf(spans, c.a, |line|), StartOf(spans, c.b, |line|);
    var st := ReadFrom(line[..p], 0, BLANK);
    StretchKeepsStyle(line, p, q);
    BlankIsCoherent();
    ReadKeepsCoherent(line[..p], 0, BLANK);
    CodesAreInvisible(st, line[p..q]);
    NothingStyled();
  }

  lemma BlankIsCoherent()
    ensures Coherent(BLANK)
  {}

  lemma NothingStyled()
    ensures Styled([], 0, BLANK) == []
  {}

  // ------------------------------------------------------------------ the scan

  datatype Progress = Progress(
    before: Str, beforeWidth: nat, after: Str, afterWidth: nat,
    currentCol: nat, pendingAnsiBefore: Str, afterStarted: bool)

  const NOTHING := Progress([], 0, [], 0, 0, [], false)

  function TakeCode(p: Progress, code: Str, w: Window): Progress {
    if p.currentCol < w.beforeEnd then p.(pendingAnsiBefore := p.pendingAnsiBefore + code)
    else if w.afterStart <= p.currentCol < w.AfterEnd() && p.afterStarted then p.(after := p.after + code)
    else p
  }

  /** `active` are the codes of the style in force. */
  function TakeGrapheme(p: Progress, g: Grapheme, active: Str, w: Window): Progress {
    var taken :=
      if p.currentCol < w.beforeEnd then
        p.(before := p.before + p.pendingAnsiBefore + g.text, pendingAnsiBefore := [], beforeWidth := p.beforeWidth + g.width)
      else if w.afterStart <= p.currentCol < w.AfterEnd() && (!w.strictAfter || p.currentCol + g.width <= w.AfterEnd()) then
        p.(after := p.after + (if p.afterStarted then [] else active) + g.text, afterStarted := true,
           afterWidth := p.afterWidth + g.width)
      else p;
    taken.(currentCol := p.currentCol + g.width)
  }

  /** After the first `k` spans, `p` holds the texts and widths of the cut `c`. */
  ghost predicate Holds(line: Str, graphemes: Segmenter, k: nat, w: Window, c: Cut, p: Progress) {
    && CutsLine(line, graphemes, k, w, c) && CutBoundsHold(line, graphemes, c)
    && var spans := Spans(line, 0, graphemes);
       && StartOf(spans, k, |line|) <= |line|
       && p.currentCol == Column(spans, k)
       && p.before == BeforeText(line, spans, c) && p.beforeWidth == Column(spans, c.n)
       && (p.currentCol < w.beforeEnd ==> p.before + p.pendingAnsiBefore == line[..StartOf(spans, k, |line|)])
       && p.afterStarted == (c.a < c.b)
       && p.after == AfterText(line, spans, c) && p.afterWidth == Column(spans, c.b) - Column(spans, c.a)
  }

  /** The next grapheme will be looked at. */
  ghost predicate Going(spans: seq<Span>, k: nat, w: Window) {
    k <= |spans| && (Column(spans, k) < w.Stop() || forall g | 0 <= g < k :: spans[g].Code?)
  }

  /** The span at `k` is the next stretch of the line. */
  ghost predicate NextSpan(line: Str, spans: seq<Span>, k: nat) {
    && k < |spans| && spans[k].start < spans[k].end <= |line|
    && StartOf(spans, k, |line|) == spans[k].start && StartOf(spans, k + 1, |line|) == spans[k].end
  }

  lemma NextSpanHolds(line: Str, graphemes: Segmenter, k: nat)
    requires IsSegmenter(graphemes) && k < |Spans(line, 0, graphemes)|
    ensures NextSpan(line, Spans(line, 0, graphemes), k)
  {
    hide Spans, Boundary;
    LineTiled(line, graphemes);
    StartsAreBoundaries(line, graphemes, k + 1);
  }

  lemma AfterGrows(line: Str, spans: seq<Span>, k: nat, c: Cut)
    requires c.a < c.b == k && NextSpan(line, spans, k) && StartOf(spans, c.a, |line|) <= StartOf(spans, k, |line|)
    ensures AfterText(line, spans, c.(b := k + 1)) == AfterText(line, spans, c) + line[spans[k].start..spans[k].end]
  {
    hide ActiveCodes, ReadFrom;
    var p := StartOf(spans, c.a, |line|);
    assert line[p..spans[k].end] == line[p..spans[k].start] + line[spans[k].start..spans[k].end];
  }

  lemma CodeStep(line: Str, graphemes: Segmenter, k: nat, w: Window, c: Cut, p: Progress) returns (d: Cut)
    requires Holds(line, graphemes, k, w, c, p)
    requires k < |Spans(line, 0, graphemes)| && Spans(line, 0, graphemes)[k].Code?
    ensures NextSpan(line, Spans(line, 0, graphemes), k)
    ensures var s := Spans(line, 0, graphemes)[k];
            Holds(line, graphemes, k + 1, w, d, TakeCode(p, line[s.start..s.end], w))
  {
    hide Spans, ActiveCodes, ReadFrom, InBefore, InAfter, IsSegmenter, AfterText, IsCut;
    var spans := Spans(line, 0, graphemes);
    NextSpanHolds(line, graphemes, k);
    if c.a < c.b {
      StartedWithin(spans, k, w, c);
    }
    if c.a < c.b && p.currentCol < w.AfterEnd() {
      StillOpen(spans, k, w, c);
      KeepCode(spans, k, w, c);
      d := c.(b := k + 1);
      AfterGrows(line, spans, k, c);
    } else {
      d := c;
      DropCode(spans, k, w, c);
    }
    CutBounds(line, graphemes, k + 1, w, d);
  }

  lemma DropCode(spans: seq<Span>, k: nat, w: Window, c: Cut)
    requires IsCut(spans, k, w, c) && k < |spans| && spans[k].Code?
    requires c.a < c.b ==> Column(spans, k) >= w.AfterEnd()
    ensures IsCut(spans, k + 1, w, c)
  {
    hide InBefore, InAfter;
  }

  /** The span at `k` is the grapheme `g`, and `active` are the codes of the style in force there. */
  ghost predicate IsNextGrapheme(line: Str, spans: seq<Span>, k: nat, g: Grapheme, active: Str) {
    && NextSpan(line, spans, k) && spans[k] == Glyph(spans[k].start, spans[k].end, g.width)
    && g.text == line[spans[k].start..spans[k].end]
    && active == ActiveCodes(ReadFrom(line[..spans[k].start], 0, BLANK))
  }

  lemma GraphemeStep(line: Str, graphemes: Segmenter, k: nat, w: Window, c: Cut, p: Progress, g: Grapheme,
                     active: Str) returns (d: Cut)
    requires Holds(line, graphemes, k, w, c, p)
    requires Going(Spans(line, 0, graphemes), k, w)
    requires IsNextGrapheme(line, Spans(line, 0, graphemes), k, g, active)
    ensures Holds(line, graphemes, k + 1, w, d, TakeGrapheme(p, g, active, w))
  {
    hide Spans, ActiveCodes, ReadFrom, IsSegmenter, AfterText, IsCut, Closes, BeforeText;
    var spans := Spans(line, 0, graphemes);
    CutBounds(line, graphemes, k, w, c);
    assert Reached(spans, k, w);
    if p.currentCol < w.beforeEnd {
      d := BeforeStep(line, graphemes, k, w, c, p, g, active);
    } else if InAfter(spans, k, w) {
      d := AfterStep(line, graphemes, k, w, c, p, g, active);
    } else {
      d := c;
      DropGrapheme(spans, k, w, c);
      CutBounds(line, graphemes, k + 1, w, d);
    }
  }

  lemma BeforeStep(line: Str, graphemes: Segmenter, k: nat, w: Window, c: Cut, p: Progress, g: Grapheme,
                   active: Str) returns (d: Cut)
    requires Holds(line, graphemes, k, w, c, p)
    requires IsNextGrapheme(line, Spans(line, 0, graphemes), k, g, active) && Reached(Spans(line, 0, graphemes), k, w)
    requires p.currentCol < w.beforeEnd
    ensures Holds(line, graphemes, k + 1, w, d, TakeGrapheme(p, g, active, w))
  {
    hide Spans, ActiveCodes, ReadFrom, IsSegmenter, AfterText, IsCut, Closes;
    var spans := Spans(line, 0, graphemes);
    d := Cut(k + 1, c.a, c.b);
    KeepBefore(spans, k, w, c);
    CutBounds(line, graphemes, k + 1, w, d);
    SameAfter(line, spans, c, d);
    BeforeIsWide(spans, k, w, c);
    var taken := p.before + p.pendingAnsiBefore + g.text;
    assert taken + [] == taken;
  }

  /** While the scan is before the overlay, every grapheme so far is kept there. */
  lemma BeforeIsWide(spans: seq<Span>, k: nat, w: Window, c: Cut)
    requires IsCut(spans, k, w, c) && k < |spans| && Reached(spans, k, w) && Column(spans, k) < w.beforeEnd
    ensures Column(spans, c.n) == Column(spans, k)
  {
    hide Column;
    forall j | c.n <= j < k
      ensures spans[j].Code?
    {
      ColumnsGrow(spans, j, k);
      assert spans[j].Glyph? ==> InBefore(spans, j, w);
    }
    CodesHaveNoWidth(spans, c.n, k);
  }

  lemma {:induction false} CodesHaveNoWidth(spans: seq<Span>, i: nat, j: nat)
    requires i <= j <= |spans| && forall x | i <= x < j :: spans[x].Code?
    ensures Column(spans, i) == Column(spans, j)
  {
    if i < j { CodesHaveNoWidth(spans, i, j - 1); }
  }

  lemma AfterStep(line: Str, graphemes: Segmenter, k: nat, w: Window, c: Cut, p: Progress, g: Grapheme,
                  active: Str) returns (d: Cut)
    requires Holds(line, graphemes, k, w, c, p)
    requires IsNextGrapheme(line, Spans(line, 0, graphemes), k, g, active) && InAfter(Spans(line, 0, graphemes), k, w)
    ensures Holds(line, graphemes, k + 1, w, d, TakeGrapheme(p, g, active, w))
  {
    hide Spans, ActiveCodes, ReadFrom, IsSegmenter, AfterText, IsCut, Closes, BeforeText, Reached;
    var spans := Spans(line, 0, graphemes);
    CutBounds(line, graphemes, k, w, c);
    if c.a < c.b {
      StillOpen(spans, k, w, c);
      d := c.(b := k + 1);
      AfterGrows(line, spans, k, c);
    } else {
      d := c.(a := k, b := k + 1);
      AfterBegins(line, spans, k, c, d);
    }
    KeepAfter(spans, k, w, c);
    CutBounds(line, graphemes, k + 1, w, d);
    SameBefore(line, spans, c, d);
  }

  lemma SameBefore(line: Str, spans: seq<Span>, c: Cut, d: Cut)
    requires c.n == d.n && c.n <= |spans| && StartOf(spans, c.n, |line|) <= |line|
    ensures BeforeText(line, spans, c) == BeforeText(line, spans, d)
  {}

  lemma SameAfter(line: Str, spans: seq<Span>, c: Cut, d: Cut)
    requires c.a == d.a && c.b == d.b
    requires c.a <= c.b <= |spans| && StartOf(spans, c.a, |line|) <= StartOf(spans, c.b, |line|) <= |line|
    ensures AfterText(line, spans, c) == AfterText(line, spans, d)
  {}

  lemma AfterBegins(line: Str, spans: seq<Span>, k: nat, c: Cut, d: Cut)
    requires NextSpan(line, spans, k) && d.a == k && d.b == k + 1
    requires c.a == c.b <= |spans| && StartOf(spans, c.a, |line|) <= |line|
    ensures AfterText(line, spans, c) == []
    ensures AfterText(line, spans, d) ==
            ActiveCodes(ReadFrom(line[..spans[k].start], 0, BLANK)) + line[spans[k].start..spans[k].end]
  {
    hide ActiveCodes, ReadFrom;
  }

  lemma DropGrapheme(spans: seq<Span>, k: nat, w: Window, c: Cut)
    requires IsCut(spans, k, w, c) && k < |spans| && Reached(spans, k, w)
    requires w.beforeEnd <= Column(spans, k) && !InAfter(spans, k, w)
    ensures IsCut(spans, k + 1, w, c)
  {
    hide Column, InAfter, Closes;
    assert spans[k].Glyph? && !InBefore(spans, k, w);
    if c.a < c.b {
      StartedWithin(spans, k, w, c);
      if c.b == k { AfterEndsHere(spans, k, w); }
    }
  }

  lemma AfterEndsHere(spans: seq<Span>, k: nat, w: Window)
    requires k < |spans| && Reached(spans, k, w) && !InAfter(spans, k, w)
    requires w.beforeEnd <= Column(spans, k) && w.afterStart <= Column(spans, k)
    ensures Closes(spans, k, w)
  {
    hide Column;
  }

  lemma FirstHolds(line: Str, graphemes: Segmenter, w: Window)
    requires IsSegmenter(graphemes)
    ensures Holds(line, graphemes, 0, w, Cut(0, 0, 0), NOTHING) && Going(Spans(line, 0, graphemes), 0, w)
  {
    hide Spans;
    LineTiled(line, graphemes);
  }

  lemma ReadCodeAt(line: Str, i: nat, end: nat)
    requires Boundary(line, 0, i) && AnsiEndAt(line, i) == Some(end)
    ensures ReadFrom(line[..end], 0, BLANK) == Process(line[i..end], ReadFrom(line[..i], 0, BLANK))
    ensures Boundary(line, 0, end)
  {
    hide AnsiEndAt, Process, Boundary;
    var text := line[..end];
    BoundaryStep(line, 0, i);
    BoundaryOfPrefix(line, end, 0, i);
    ReadInHalves(text, 0, i, BLANK);
    assert text[..i] == line[..i] && text[i..end] == line[i..end];
    ScanOfPrefix(line, end, i);
    assert ReadFrom(text, i, ReadFrom(line[..i], 0, BLANK)) == ReadFrom(text, end, Process(line[i..end], ReadFrom(line[..i], 0, BLANK)));
  }

  lemma {:induction false} BoundaryOfPrefix(line: Str, cut: nat, i: nat, p: nat)
    requires Boundary(line, i, p) && p <= cut <= |line|
    ensures Boundary(line[..cut], i, p)
    decreases |line| - i
  {
    hide AnsiEndAt;
    if i < p {
      ScanOfPrefix(line, cut, i);
      match AnsiEndAt(line, i) {
        case Some(end) =>
          BoundaryOfPrefix(line, cut, end, p);
        case None =>
          BoundaryOfPrefix(line, cut, i + 1, p);
      }
    }
  }

  /** Plain text leaves the style alone. */
  lemma {:induction false} ReadTextAt(line: Str, i: nat, end: nat)
    requires Boundary(line, 0, i) && i <= end <= |line|
    requires forall j | i <= j < end :: AnsiEndAt(line, j) == None
    ensures ReadFrom(line[..end], 0, BLANK) == ReadFrom(line[..i], 0, BLANK)
    ensures Boundary(line, 0, end)
    decreases end - i
  {
    hide AnsiEndAt, Process, Boundary, ReadFrom;
    if i < end {
      BoundaryStep(line, 0, i);
      ReadTextAt(line, i + 1, end);
      OneCharacter(line, i);
    }
  }

  lemma OneCharacter(line: Str, i: nat)
    requires Boundary(line, 0, i) && i < |line| && AnsiEndAt(line, i) == None
    ensures ReadFrom(line[..i + 1], 0, BLANK) == ReadFrom(line[..i], 0, BLANK)
  {
    hide AnsiEndAt, Process, Boundary;
    var text := line[..i + 1];
    BoundaryOfPrefix(line, i + 1, 0, i);
    ReadInHalves(text, 0, i, BLANK);
    assert text[..i] == line[..i];
    ScanOfPrefix(line, i + 1, i);
  }

  /** The style in force at `i`. */
  ghost function StyleAt(line: Str, i: nat): Style
    requires i <= |line|
  {
    ReadFrom(line[..i], 0, BLANK)
  }

  /** The scan stands before the `k`-th span, at position `i`. */
  ghost predicate StandsAt(line: Str, graphemes: Segmenter, k: nat, i: nat) {
    && k <= |Spans(line, 0, graphemes)| && i <= |line|
    && Spans(line, 0, graphemes)[k..] == Spans(line, i, graphemes)
    && Boundary(line, 0, i)
  }

  /** The scan stands at `pos` within plain text that goes on with the graphemes `gs` up to `end`. */
  ghost predicate WithinRun(line: Str, graphemes: Segmenter, k: nat, gs: seq<Grapheme>, pos: nat, end: nat) {
    && k <= |Spans(line, 0, graphemes)| && pos <= end <= |line|
    && Spans(line, 0, graphemes)[k..] == GlyphSpans(gs, pos) + Spans(line, end, graphemes)
    && Joined(gs) == line[pos..end] && (forall g | g in gs :: g.text != [])
    && Boundary(line, 0, pos) && (forall j | pos <= j < end :: AnsiEndAt(line, j) == None)
  }

  /** The last grapheme looked at reached the stop column. */
  ghost predicate HasStopped(spans: seq<Span>, k: nat, w: Window) {
    0 < k <= |spans| && spans[k - 1].Glyph? && Column(spans, k) >= w.Stop()
  }

  lemma FirstStands(line: Str, graphemes: Segmenter)
    ensures StandsAt(line, graphemes, 0, 0) && StyleAt(line, 0) == BLANK
  {
    hide Spans;
    ReadNothing(BLANK);
    assert line[..0] == [];
  }

  lemma CodeComesNext(line: Str, graphemes: Segmenter, k: nat, i: nat)
    requires StandsAt(line, graphemes, k, i) && i < |line| && AnsiEndAt(line, i).Some?
    ensures var end := AnsiEndAt(line, i).value;
            && k < |Spans(line, 0, graphemes)| && Spans(line, 0, graphemes)[k] == Code(i, end)
            && StandsAt(line, graphemes, k + 1, end)
            && StyleAt(line, end) == Process(line[i..end], StyleAt(line, i))
  {
    hide AnsiEndAt, Process, Boundary, ReadFrom;
    var end := AnsiEndAt(line, i).value;
    var spans, rest := Spans(line, 0, graphemes), Spans(line, end, graphemes);
    assert spans[k..] == [Code(i, end)] + rest;
    assert spans[k] == spans[k..][0] && spans[k + 1..] == spans[k..][1..];
    ReadCodeAt(line, i, end);
  }

  lemma RunBegins(line: Str, graphemes: Segmenter, k: nat, i: nat)
    requires IsSegmenter(graphemes)
    requires StandsAt(line, graphemes, k, i) && i < |line| && AnsiEndAt(line, i) == None
    ensures i < TextEnd(line, i)
    ensures WithinRun(line, graphemes, k, graphemes(line[i..TextEnd(line, i)]), i, TextEnd(line, i))
  {
    hide AnsiEndAt, Boundary;
  }

  /** The first grapheme of a run is the next span. */
  lemma RunHead(line: Str, graphemes: Segmenter, k: nat, gs: seq<Grapheme>, pos: nat, end: nat)
    requires WithinRun(line, graphemes, k, gs, pos, end) && gs != []
    ensures var spans, next := Spans(line, 0, graphemes), pos + |gs[0].text|;
            && k < |spans| && spans[k] == Glyph(pos, next, gs[0].width)
            && spans[k + 1..] == GlyphSpans(gs[1..], next) + Spans(line, end, graphemes)
            && next <= end && gs[0].text == line[pos..next] && Joined(gs[1..]) == line[next..end]
  {
    hide AnsiEndAt, Boundary, Spans;
    var spans, g, rest := Spans(line, 0, graphemes), gs[0], Spans(line, end, graphemes);
    var next := pos + |g.text|;
    assert spans[k..] == [Glyph(pos, next, g.width)] + (GlyphSpans(gs[1..], next) + rest);
    assert spans[k] == spans[k..][0] && spans[k + 1..] == spans[k..][1..];
    assert line[pos..end] == g.text + Joined(gs[1..]);
    assert line[pos..end][..|g.text|] == line[pos..next] && line[pos..end][|g.text|..] == line[next..end];
  }

  lemma RunStep(line: Str, graphemes: Segmenter, k: nat, gs: seq<Grapheme>, pos: nat, end: nat)
    requires IsSegmenter(graphemes) && WithinRun(line, graphemes, k, gs, pos, end) && gs != []
    ensures pos + |gs[0].text| <= |line|
    ensures IsNextGrapheme(line, Spans(line, 0, graphemes), k, gs[0], ActiveCodes(StyleAt(line, pos)))
    ensures WithinRun(line, graphemes, k + 1, gs[1..], pos + |gs[0].text|, end)
    ensures StyleAt(line, pos + |gs[0].text|) == StyleAt(line, pos)
  {
    hide *;
    RunHead(line, graphemes, k, gs, pos, end);
    RunTail(line, graphemes, k, gs, pos, end);
    NextSpanHolds(line, graphemes, k);
    HeadIsNext(line, Spans(line, 0, graphemes), k, gs[0], pos);
  }

  lemma HeadIsNext(line: Str, spans: seq<Span>, k: nat, g: Grapheme, pos: nat)
    requires NextSpan(line, spans, k) && spans[k] == Glyph(pos, pos + |g.text|, g.width)
    requires g.text == line[pos..pos + |g.text|]
    ensures IsNextGrapheme(line, spans, k, g, ActiveCodes(StyleAt(line, pos)))
  {
    hide ActiveCodes, ReadFrom;
  }

  lemma RunTail(line: Str, graphemes: Segmenter, k: nat, gs: seq<Grapheme>, pos: nat, end: nat)
    requires WithinRun(line, graphemes, k, gs, pos, end) && gs != []
    ensures pos + |gs[0].text| <= |line|
    ensures WithinRun(line, graphemes, k + 1, gs[1..], pos + |gs[0].text|, end)
    ensures StyleAt(line, pos + |gs[0].text|) == StyleAt(line, pos)
  {
    hide AnsiEndAt, Boundary, Spans, ReadFrom, GlyphSpans, Joined;
    RunHead(line, graphemes, k, gs, pos, end);
    assert forall h | h in gs[1..] :: h in gs;
    ReadTextAt(line, pos, pos + |gs[0].text|);
  }

  lemma RunEnds(line: Str, graphemes: Segmenter, k: nat, pos: nat, end: nat)
    requires WithinRun(line, graphemes, k, [], pos, end)
    ensures pos == end && StandsAt(line, graphemes, k, end)
  {
    hide Spans, Boundary, AnsiEndAt;
  }

  /** After a grapheme either the stop column is reached or the scan goes on. */
  lemma GoesOnOrStops(spans: seq<Span>, k: nat, w: Window)
    requires k < |spans| && spans[k].Glyph?
    ensures if Column(spans, k + 1) >= w.Stop() then HasStopped(spans, k + 1, w) else Going(spans, k + 1, w)
  {}

  lemma CodeGoesOn(spans: seq<Span>, k: nat, w: Window)
    requires k < |spans| && spans[k].Code? && Going(spans, k, w)
    ensures Going(spans, k + 1, w)
  {}

  method FindTextEnd(line: Str, i: nat, extractor: AnsiCodeExtractor) returns (textEnd: nat)
    requires i <= |line| && extractor.Valid() && extractor.text == line
    modifies extractor
    ensures extractor.Valid() && textEnd == TextEnd(line, i)
  {
    hide AnsiEndAt;
    textEnd := i;
    while textEnd < |line|
      invariant extractor.Valid()
      invariant i <= textEnd <= |line| && TextEnd(line, textEnd) == TextEnd(line, i)
    {
      var end := extractor.EndAt(textEnd);
      if end.Some? {
        break;
      }
      textEnd := textEnd + 1;
    }
  }

  /** The graphemes of one run of plain text, up to the one that reaches the stop column. */
  method TakeRun(line: Str, w: Window, graphemes: Segmenter, tracker: AnsiCodeTracker, i: nat, textEnd: nat,
                 start: Progress, ghost k: nat, ghost c: Cut)
    returns (p: Progress, stopped: bool, ghost kNext: nat, ghost d: Cut)
    requires IsSegmenter(graphemes) && i < textEnd <= |line|
    requires WithinRun(line, graphemes, k, graphemes(line[i..textEnd]), i, textEnd)
    requires Holds(line, graphemes, k, w, c, start) && Going(Spans(line, 0, graphemes), k, w)
    requires tracker.View() == StyleAt(line, i)
    ensures Holds(line, graphemes, kNext, w, d, p)
    ensures if stopped then HasStopped(Spans(line, 0, graphemes), kNext, w)
            else Going(Spans(line, 0, graphemes), kNext, w) && StandsAt(line, graphemes, kNext, textEnd)
                 && StyleAt(line, textEnd) == StyleAt(line, i)
  {
    hide Spans, Holds, Going, StandsAt, StyleAt, WithinRun, HasStopped, TakeGrapheme, AnsiEndAt, IsSegmenter, ActiveCodes;
    var gs := graphemes(line[i..textEnd]);
    p, stopped, kNext, d := start, false, k, c;
    ghost var pos: nat := i;
    var j := 0;
    while j < |gs| && !stopped
      invariant j <= |gs| && pos <= |line|
      invariant Holds(line, graphemes, kNext, w, d, p)
      invariant if stopped then HasStopped(Spans(line, 0, graphemes), kNext, w)
                else Going(Spans(line, 0, graphemes), kNext, w) && WithinRun(line, graphemes, kNext, gs[j..], pos, textEnd)
                     && StyleAt(line, pos) == StyleAt(line, i)
      decreases |gs| - j, !stopped
    {
      var active := tracker.GetActiveCodes();
      RunStep(line, graphemes, kNext, gs[j..], pos, textEnd);
      assert gs[j..][0] == gs[j] && gs[j..][1..] == gs[j + 1..];
      d := GraphemeStep(line, graphemes, kNext, w, d, p, gs[j], active);
      GoesOnOrStops(Spans(line, 0, graphemes), kNext, w);
      p := TakeGrapheme(p, gs[j], active, w);
      pos, kNext, j := pos + |gs[j].text|, kNext + 1, j + 1;
      ColumnHeld(line, graphemes, kNext, w, d, p);
      if p.currentCol >= w.Stop() {
        stopped := true;
      }
    }
    if !stopped {
      assert gs[j..] == [];
      RunEnds(line, graphemes, kNext, pos, textEnd);
    }
  }

  lemma ColumnHeld(line: Str, graphemes: Segmenter, k: nat, w: Window, c: Cut, p: Progress)
    requires Holds(line, graphemes, k, w, c, p)
    ensures k <= |Spans(line, 0, graphemes)| && p.currentCol == Column(Spans(line, 0, graphemes), k)
  {
    hide Spans, IsCut;
    CutBounds(line, graphemes, k, w, c);
  }

  /** When the scan ends, whatever is left of the line holds nothing to keep. */
  lemma ScanEnds(line: Str, graphemes: Segmenter, k: nat, w: Window, c: Cut, p: Progress, i: nat)
    requires Holds(line, graphemes, k, w, c, p)
    requires HasStopped(Spans(line, 0, graphemes), k, w) || (StandsAt(line, graphemes, k, i) && i == |line|)
    ensures CutsLine(line, graphemes, |Spans(line, 0, graphemes)|, w, c) && CutBoundsHold(line, graphemes, c)
    ensures p.before == BeforeText(line, Spans(line, 0, graphemes), c)
    ensures p.after == AfterText(line, Spans(line, 0, graphemes), c)
    ensures p.beforeWidth == Column(Spans(line, 0, graphemes), c.n)
    ensures p.afterWidth == Column(Spans(line, 0, graphemes), c.b) - Column(Spans(line, 0, graphemes), c.a)
  {
    hide IsCut, AfterText, BeforeText;
    var spans := Spans(line, 0, graphemes);
    if HasStopped(spans, k, w) {
      Stopped(spans, k, w, c);
    } else {
      assert spans[k..] == [];
      assert k == |spans|;
    }
  }

  /**
   * The two texts of an overlay split: everything the line shows before the overlay, and the stretch it shows after it
   * behind the codes that restore its style. `CutsLine` says which graphemes these are, `BeforeKeepsStyle` and
   * `AfterKeepsStyle` that they look as they did.
   */
  method ExtractSegments(line: Str, w: Window, graphemes: Segmenter, tracker: AnsiCodeTracker)
    returns (before: Str, beforeWidth: nat, after: Str, afterWidth: nat, ghost c: Cut)
    requires IsSegmenter(graphemes)
    modifies tracker
    ensures CutsLine(line, graphemes, |Spans(line, 0, graphemes)|, w, c) && CutBoundsHold(line, graphemes, c)
    ensures before == BeforeText(line, Spans(line, 0, graphemes), c)
    ensures after == AfterText(line, Spans(line, 0, graphemes), c)
    ensures beforeWidth == Column(Spans(line, 0, graphemes), c.n)
    ensures afterWidth == Column(Spans(line, 0, graphemes), c.b) - Column(Spans(line, 0, graphemes), c.a)
  {
    hide Spans, Holds, Going, StandsAt, StyleAt, IsCut, TakeCode, TakeGrapheme, IsSegmenter, AnsiEndAt, TextEnd,
      WithinRun, HasStopped, CutsLine, CutBoundsHold, BeforeText, AfterText, Process, Column;
    var p, i, stopped := NOTHING, 0, false;
    var extractor := new AnsiCodeExtractor(line);
    tracker.Clear();
    ghost var k := 0;
    c := Cut(0, 0, 0);
    FirstHolds(line, graphemes, w);
    FirstStands(line, graphemes);
    while i < |line| && !stopped
      invariant fresh(extractor) && extractor.Valid() && extractor.text == line
      invariant i <= |line|
      invariant Holds(line, graphemes, k, w, c, p)
      invariant if stopped then HasStopped(Spans(line, 0, graphemes), k, w)
                else Going(Spans(line, 0, graphemes), k, w) && StandsAt(line, graphemes, k, i)
                     && tracker.View() == StyleAt(line, i)
      decreases |line| - i
    {
      var end := extractor.EndAt(i);
      if end.Some? {
        tracker.ProcessCode(line[i..end.value]);
        CodeComesNext(line, graphemes, k, i);
        CodeGoesOn(Spans(line, 0, graphemes), k, w);
        c := CodeStep(line, graphemes, k, w, c, p);
        p := TakeCode(p, line[i..end.value], w);
        i, k := end.value, k + 1;
      } else {
        RunBegins(line, graphemes, k, i);
        var textEnd := FindTextEnd(line, i, extractor);
        p, stopped, k, c := TakeRun(line, w, graphemes, tracker, i, textEnd, p, k, c);
        i := textEnd;
      }
    }
    ScanEnds(line, graphemes, k, w, c, p, i);
    before, beforeWidth, after, afterWidth := p.before, p.beforeWidth, p.after, p.afterWidth;
  }
}
