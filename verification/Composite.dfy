/**
 * Laying an overlay over one line (packages/tui/src/tui.ts:1355-1403): which columns the line before it, the overlay and the
 * line after it come to stand in.
 */
module Composite {
  import opened AnsiScanner
  import opened AnsiStyle
  import opened Columns
  import opened Segments
  import opened Strings

  // ------------------------------------------------------------------ the columns a cut takes

  function Max(a: int, b: int): int {
    if a >= b then a else b
  }

  /** A grapheme begins left of the column and ends right of it. */
  ghost predicate Straddled(spans: seq<Span>, col: int) {
    exists j :: 0 <= j < |spans| && Column(spans, j) < col < Column(spans, j + 1)
  }

  /** The graphemes that follow the cut before the overlay begin where that cut ends. */
  lemma BeforeEnds(spans: seq<Span>, w: Window, c: Cut, j: nat)
    requires IsCut(spans, |spans|, w, c) && c.n <= j < |spans| && forall i | c.n <= i < j :: spans[i].Code?
    ensures Column(spans, j) == Column(spans, c.n)
  {
    hide Column, InBefore, InAfter;
    CodesHaveNoWidth(spans, c.n, j);
  }

  /** Before the overlay the line is kept up to the first grapheme boundary at or past the column, or to its end. */
  lemma BeforeReaches(spans: seq<Span>, w: Window, c: Cut)
    requires IsCut(spans, |spans|, w, c)
    ensures c.n > 0 ==> Column(spans, c.n - 1) < w.beforeEnd
    ensures Column(spans, c.n) < w.beforeEnd && Column(spans, c.n) < w.Stop() ==> Column(spans, c.n) == Column(spans, |spans|)
  {
    hide Column, InAfter, Closes;
    assert c.n > 0 ==> InBefore(spans, c.n - 1, w);
    if Column(spans, c.n) < w.beforeEnd && Column(spans, c.n) < w.Stop() {
      if j :| c.n <= j < |spans| && spans[j].Glyph? {
        var first := FirstGlyph(spans, c.n, j);
        CodesHaveNoWidth(spans, c.n, first);
        KeptOrPast(spans, w, c, first);
      }
      CodesHaveNoWidth(spans, c.n, |spans|);
    }
  }

  lemma KeptOrPast(spans: seq<Span>, w: Window, c: Cut, j: nat)
    requires IsCut(spans, |spans|, w, c) && c.n <= j < |spans| && spans[j].Glyph?
    ensures Column(spans, j) >= w.beforeEnd || Column(spans, j) >= w.Stop()
  {
    hide Column;
    assert !InBefore(spans, j, w);
  }

  lemma {:induction false} FirstGlyph(spans: seq<Span>, i: nat, j: nat) returns (first: nat)
    requires i <= j < |spans| && spans[j].Glyph?
    ensures i <= first <= j && spans[first].Glyph? && forall k | i <= k < first :: spans[k].Code?
    decreases j - i
  {
    first := i;
    if spans[i].Code? { first := FirstGlyph(spans, i + 1, j); }
  }

  /** After the overlay the line goes on with the first grapheme that begins at or past both columns, and ends within. */
  lemma AfterBeginsFirst(spans: seq<Span>, w: Window, c: Cut)
    requires IsCut(spans, |spans|, w, c) && c.a < c.b
    ensures spans[c.a].Glyph? && Max(w.beforeEnd, w.afterStart) <= Column(spans, c.a)
    ensures forall j | 0 <= j < c.a && spans[j].Glyph? :: Column(spans, j) < Max(w.beforeEnd, w.afterStart)
    ensures w.strictAfter ==> Column(spans, c.b) <= w.AfterEnd()
  {
    hide Column, InBefore;
    assert InAfter(spans, c.a, w);
    forall j | 0 <= j < c.a && spans[j].Glyph?
      ensures Column(spans, j) < Max(w.beforeEnd, w.afterStart)
    {
      ColumnsGrow(spans, j, c.a);
      ColumnsGrow(spans, j + 1, c.a);
      StepColumn(spans, j);
    }
    if w.strictAfter {
      var last := LastGlyph(spans, c.a, c.b);
      assert InAfter(spans, last, w);
      StepColumn(spans, last);
      CodesHaveNoWidth(spans, last + 1, c.b);
    }
  }

  lemma StepColumn(spans: seq<Span>, j: nat)
    requires j < |spans|
    ensures Column(spans, j + 1) == Column(spans, j) + spans[j].Width()
  {}

  lemma {:induction false} LastGlyph(spans: seq<Span>, a: nat, b: nat) returns (last: nat)
    requires a < b <= |spans| && spans[a].Glyph?
    ensures a <= last < b && spans[last].Glyph? && forall k | last < k < b :: spans[k].Code?
    decreases b - a
  {
    last := b - 1;
    if spans[b - 1].Code? { last := LastGlyph(spans, a, b - 1); }
  }

  /** Nothing that fits between the columns is left out. */
  lemma NothingFitsElsewhere(spans: seq<Span>, w: Window, c: Cut, j: nat)
    requires IsCut(spans, |spans|, w, c) && j < |spans| && spans[j].Glyph? && !(c.a <= j < c.b)
    requires Max(w.beforeEnd, w.afterStart) <= Column(spans, j)
    ensures Column(spans, j) >= w.AfterEnd() || (w.strictAfter && Column(spans, j) + spans[j].width > w.AfterEnd())
  {
    hide Column, InBefore;
    assert !InAfter(spans, j, w);
  }

  /** What a cut keeps is determined: a line has one text before and one text after the overlay. */
  lemma CutIsUnique(spans: seq<Span>, w: Window, c: Cut, d: Cut)
    requires IsCut(spans, |spans|, w, c) && IsCut(spans, |spans|, w, d)
    ensures c.n == d.n && (c.a < c.b <==> d.a < d.b) && (c.a < c.b ==> c == d)
  {
    hide InBefore, InAfter, Closes;
    assert c.n > 0 ==> c.n - 1 < d.n;
    assert d.n > 0 ==> d.n - 1 < c.n;
    assert c.a < c.b ==> d.a <= c.a < d.b;
    assert d.a < d.b ==> c.a <= d.a < c.b;
  }

  // ------------------------------------------------------------------ the pieces of the line

  /** A piece of the composed line and the columns it is counted for. */
  datatype Piece = Piece(text: Str, width: nat)

  function TextOf(ps: seq<Piece>): Str {
    if ps == [] then [] else TextOf(ps[..|ps| - 1]) + ps[|ps| - 1].text
  }

  /** The column in which the `k`-th piece begins. */
  function Offset(ps: seq<Piece>, k: nat): nat
    requires k <= |ps|
  {
    if k == 0 then 0 else Offset(ps, k - 1) + ps[k - 1].width
  }

  function Blanks(n: int): Piece {
    if n <= 0 then Piece([], 0) else Piece(Copies(SPACE, n), n)
  }

  /** SGR 0 and the end of a hyperlink. */
  const RESET: Piece := Piece([ESC, 0x5b, 0x30, 0x6d, ESC, 0x5d, 0x38, 0x3b, 0x3b, 0x07], 0)

  function Pieces(before: Piece, overlay: Piece, after: Piece, startCol: nat, overlayWidth: nat, totalWidth: int): seq<Piece> {
    [before, Blanks(startCol - before.width), RESET, overlay, Blanks(overlayWidth - overlay.width), RESET, after,
     Blanks(Max(0, totalWidth - Max(startCol, before.width) - Max(overlayWidth, overlay.width)) - after.width)]
  }

  /** The window of the base line around the overlay. */
  function Around(startCol: nat, overlayWidth: nat, totalWidth: int): Window {
    Window(startCol, startCol + overlayWidth, totalWidth - (startCol + overlayWidth), true)
  }

  /** The pieces of the line, if the base line is cut by `c` and the overlay is counted for `shown` columns. */
  ghost predicate IsLayout(ps: seq<Piece>, base: seq<Span>, c: Cut, shown: nat, startCol: nat, overlayWidth: nat, totalWidth: int) {
    && IsCut(base, |base|, Around(startCol, overlayWidth, totalWidth), c) && shown <= overlayWidth
    && |ps| == 8 && ps[0].width == Column(base, c.n) && ps[3].width == shown
    && ps[6].width == Column(base, c.b) - Column(base, c.a)
    && ps == Pieces(ps[0], ps[3], ps[6], startCol, overlayWidth, totalWidth)
  }

  lemma Offsets(ps: seq<Piece>)
    requires |ps| == 8
    ensures Offset(ps, 3) == ps[0].width + ps[1].width + ps[2].width
    ensures Offset(ps, 6) == Offset(ps, 3) + ps[3].width + ps[4].width + ps[5].width
    ensures Offset(ps, 8) == Offset(ps, 6) + ps[6].width + ps[7].width
  {
    assert Offset(ps, 1) == ps[0].width && Offset(ps, 2) == Offset(ps, 1) + ps[1].width;
    assert Offset(ps, 4) == Offset(ps, 3) + ps[3].width && Offset(ps, 5) == Offset(ps, 4) + ps[4].width;
    assert Offset(ps, 7) == Offset(ps, 6) + ps[6].width;
  }

  /**
   * The overlay stands in its own columns exactly when no grapheme of the base line straddles the first of them; if one does,
   * it is kept whole and pushes the overlay to the right.
   */
  lemma OverlayStandsExactlyWhen(ps: seq<Piece>, base: seq<Span>, c: Cut, shown: nat, startCol: nat, overlayWidth: nat, totalWidth: int)
    requires IsLayout(ps, base, c, shown, startCol, overlayWidth, totalWidth) && startCol + overlayWidth <= totalWidth
    ensures Offset(ps, 3) == Max(startCol, Column(base, c.n))
    ensures Offset(ps, 3) == startCol <==> !Straddled(base, startCol)
  {
    hide Column, Offset, IsCut;
    Offsets(ps);
    BeforeOverhangs(base, Around(startCol, overlayWidth, totalWidth), c);
    NoColumn(base);
  }

  lemma BeforeOverhangs(spans: seq<Span>, w: Window, c: Cut)
    requires IsCut(spans, |spans|, w, c) && w.beforeEnd <= w.Stop()
    ensures c.n <= |spans| && (Column(spans, c.n) > w.beforeEnd && w.beforeEnd > 0 <==> Straddled(spans, w.beforeEnd))
    ensures w.beforeEnd <= 0 ==> c.n == 0
  {
    hide Column, InBefore, InAfter, Closes;
    BeforeReaches(spans, w, c);
    if c.n > 0 { StepColumn(spans, c.n - 1); }
    NoColumn(spans);
    if j :| 0 <= j < |spans| && Column(spans, j) < w.beforeEnd < Column(spans, j + 1) {
      StepColumn(spans, j);
      GlyphIsBefore(spans, w, c, j);
      ColumnsGrow(spans, j + 1, c.n);
    }
  }

  lemma NoColumn(spans: seq<Span>)
    ensures Column(spans, 0) == 0
  {}

  lemma GlyphIsBefore(spans: seq<Span>, w: Window, c: Cut, j: nat)
    requires IsCut(spans, |spans|, w, c) && j < |spans| && spans[j].Glyph? && Column(spans, j) < w.beforeEnd <= w.Stop()
    ensures j < c.n
  {
    hide Column;
    assert InBefore(spans, j, w);
  }

  /** By its own count the composed line is never too narrow, and it is too wide exactly when a grapheme that straddles the left
      edge of the overlay has pushed more of the line to the right than blanks were left there. */
  lemma FillsExactlyWhen(ps: seq<Piece>, base: seq<Span>, c: Cut, shown: nat, startCol: nat, overlayWidth: nat, totalWidth: int)
    requires IsLayout(ps, base, c, shown, startCol, overlayWidth, totalWidth) && startCol + overlayWidth <= totalWidth
    ensures Offset(ps, 8) >= totalWidth
    ensures Offset(ps, 8) == totalWidth
            <==> !Straddled(base, startCol)
                 || Column(base, c.n) + overlayWidth + (Column(base, c.b) - Column(base, c.a)) <= totalWidth
  {
    hide Column, Offset;
    var w := Around(startCol, overlayWidth, totalWidth);
    Offsets(ps);
    BeforeOverhangs(base, w, c);
    NoColumn(base);
    if c.a < c.b { AfterBeginsFirst(base, w, c); }
    hide IsCut;
  }

  /**
   * The rest of the line keeps its columns exactly when it begins as far past the right edge of the overlay as the line before
   * the overlay reaches past the left edge: so always, when no grapheme straddles either edge.
   */
  lemma RestStaysExactlyWhen(ps: seq<Piece>, base: seq<Span>, c: Cut, shown: nat, startCol: nat, overlayWidth: nat, totalWidth: int)
    requires IsLayout(ps, base, c, shown, startCol, overlayWidth, totalWidth) && startCol + overlayWidth <= totalWidth && c.a < c.b
    ensures Offset(ps, 6) == Column(base, c.a)
            <==> Column(base, c.a) - (startCol + overlayWidth) == Max(0, Column(base, c.n) - startCol)
    ensures !Straddled(base, startCol) && !Straddled(base, startCol + overlayWidth) ==> Offset(ps, 6) == Column(base, c.a)
  {
    hide Column, Offset;
    var w := Around(startCol, overlayWidth, totalWidth);
    Offsets(ps);
    BeforeOverhangs(base, w, c);
    NoColumn(base);
    AfterOverhangs(base, w, c);
    hide IsCut;
  }

  /** What follows the overlay begins right at its edge, unless a grapheme straddles that edge. */
  lemma AfterOverhangs(spans: seq<Span>, w: Window, c: Cut)
    requires IsCut(spans, |spans|, w, c) && c.a < c.b && 0 <= w.beforeEnd <= w.afterStart
    ensures w.afterStart <= Column(spans, c.a)
    ensures Column(spans, c.a) > w.afterStart <==> Straddled(spans, w.afterStart)
  {
    hide Column, InBefore, InAfter, Closes;
    AfterBeginsFirst(spans, w, c);
    NoColumn(spans);
    if Column(spans, c.a) > w.afterStart {
      var last := LastBefore(spans, c.a);
      StepColumn(spans, last);
      CodesHaveNoWidth(spans, last + 1, c.a);
      assert Column(spans, last) < w.afterStart;
    }
    if j :| 0 <= j < |spans| && Column(spans, j) < w.afterStart < Column(spans, j + 1) {
      if c.a <= j { ColumnsGrow(spans, c.a, j); } else { ColumnsGrow(spans, j + 1, c.a); }
    }
  }

  /** In front of a column past the first there is a grapheme. */
  lemma {:induction false} LastBefore(spans: seq<Span>, k: nat) returns (last: nat)
    requires k <= |spans| && Column(spans, k) > 0
    ensures last < k && spans[last].Glyph? && forall i | last < i < k :: spans[i].Code?
    decreases k
  {
    last := k - 1;
    if spans[k - 1].Code? { last := LastBefore(spans, k - 1); }
  }

  // ------------------------------------------------------------------ the styles of the pieces

  /** The style in force when the `k`-th piece begins. */
  function StyleBefore(ps: seq<Piece>, k: nat): Style
    requires k <= |ps|
  {
    if k == 0 then BLANK else ReadFrom(ps[k - 1].text, 0, StyleBefore(ps, k - 1))
  }

  /** The first `k` pieces as they show, each read by itself in the style its predecessors leave. */
  function ShownApart(ps: seq<Piece>, k: nat): seq<(Unit, Style)>
    requires k <= |ps|
  {
    if k == 0 then [] else ShownApart(ps, k - 1) + Styled(ps[k - 1].text, 0, StyleBefore(ps, k - 1))
  }

  /** No escape sequence reaches from one piece into the next: a reader stands at every seam. */
  ghost predicate StandsAtSeams(ps: seq<Piece>) {
    forall k | 0 <= k <= |ps| :: |TextOf(ps[..k])| <= |TextOf(ps)| && Boundary(TextOf(ps), 0, |TextOf(ps[..k])|)
  }

  lemma {:induction false} TextGrows(ps: seq<Piece>, k: nat)
    requires k <= |ps|
    ensures |TextOf(ps[..k])| <= |TextOf(ps)| && TextOf(ps)[..|TextOf(ps[..k])|] == TextOf(ps[..k])
    decreases |ps|
  {
    if k == |ps| {
      assert ps[..k] == ps;
    } else {
      var front := ps[..|ps| - 1];
      assert front[..k] == ps[..k];
      TextGrows(front, k);
    }
  }

  lemma NextText(ps: seq<Piece>, k: nat)
    requires k < |ps|
    ensures TextOf(ps[..k + 1]) == TextOf(ps[..k]) + ps[k].text
  {
    var front := ps[..k + 1];
    assert front[..|front| - 1] == ps[..k] && front[|front| - 1] == ps[k];
  }

  /** Where readers stand at the seams, the pieces are shown as they are read one by one. */
  lemma {:induction false} PiecesStayApart(ps: seq<Piece>, k: nat)
    requires StandsAtSeams(ps) && k <= |ps|
    ensures Styled(TextOf(ps[..k]), 0, BLANK) == ShownApart(ps, k)
    ensures ReadFrom(TextOf(ps[..k]), 0, BLANK) == StyleBefore(ps, k)
    decreases k
  {
    hide Styled, ReadFrom, TextOf, Boundary;
    if k == 0 {
      assert TextOf(ps[..0]) == [] by { NoText(ps[..0]); }
      NothingStyled();
      ReadNothing(BLANK);
    } else {
      PiecesStayApart(ps, k - 1);
      var front, text := TextOf(ps[..k - 1]), TextOf(ps[..k]);
      NextText(ps, k - 1);
      TextGrows(ps, k);
      assert |front| <= |TextOf(ps)| && Boundary(TextOf(ps), 0, |front|);
      BoundaryOfPrefix(TextOf(ps), |text|, 0, |front|);
      ReadInHalves(text, 0, |front|, BLANK);
      assert text[..|front|] == front && text[|front|..] == ps[k - 1].text;
      StyledShift(text, |front|, |front|, StyleBefore(ps, k - 1));
      ReadShift(text, |front|, |front|, StyleBefore(ps, k - 1));
    }
  }

  lemma NoText(ps: seq<Piece>)
    requires ps == []
    ensures TextOf(ps) == []
  {}

  /** The reset shows nothing and leaves a blank style, whatever was in force. */
  lemma ResetClears(st: Style)
    ensures Styled(RESET.text, 0, st) == [] && ReadFrom(RESET.text, 0, st) == BLANK
  {
    hide Styled, ReadFrom, IsCode, Process, FormatOsc8Close;
    var zero, close := CSI + [0x30] + [LETTER_M], FormatOsc8Close(Bel);
    ZeroResets(st);
    CloseApplies(Bel, Reset(st));
    assert RESET.text == zero + (close + []) by { ResetText(); }
    StyledCode(zero, close + [], st);
    StyledCode(close, [], Reset(st));
    ReadCode(zero, close + [], st);
    ReadCode(close, [], Reset(st));
    EmptyShows(BLANK);
    ReadNothing(BLANK);
  }

  lemma EmptyShows(st: Style)
    ensures Styled([], 0, st) == []
  {}

  lemma ResetText()
    ensures RESET.text == CSI + [0x30] + [LETTER_M] + (FormatOsc8Close(Bel) + [])
  {}

  lemma ZeroResets(st: Style)
    ensures IsCode(CSI + [0x30] + [LETTER_M]) && Process(CSI + [0x30] + [LETTER_M], st) == Reset(st)
  {
    hide IsCode, Process, Split, ApplySgr;
    var codes := [Decimal(0)];
    assert Decimal(0) == [0x30];
    FlagIsSgrText(true, 0);
    assert Decimal(0) in Flag(true, 0);
    ProcessPrinted(codes, st);
    SplitOfJoinAll(codes);
    OneCode(0, st);
    assert PrintSgr(codes) == CSI + [0x30] + [LETTER_M];
  }

  /**
   * The overlay takes no style from the line and leaves none behind: where readers stand at the seams, the part before the
   * overlay, the overlay and the part after it each show exactly as they would on a blank terminal, with blanks between them.
   */
  lemma StylesStayApart(before: Piece, overlay: Piece, after: Piece, startCol: nat, overlayWidth: nat, totalWidth: int)
    requires StandsAtSeams(Pieces(before, overlay, after, startCol, overlayWidth, totalWidth))
    ensures var ps := Pieces(before, overlay, after, startCol, overlayWidth, totalWidth);
            Styled(TextOf(ps), 0, BLANK) ==
            Styled(before.text, 0, BLANK) + Styled(ps[1].text, 0, ReadFrom(before.text, 0, BLANK))
            + Styled(overlay.text, 0, BLANK) + Styled(ps[4].text, 0, ReadFrom(overlay.text, 0, BLANK))
            + Styled(after.text, 0, BLANK) + Styled(ps[7].text, 0, ReadFrom(after.text, 0, BLANK))
  {
    hide Styled, ReadFrom, TextOf, StandsAtSeams;
    var ps := Pieces(before, overlay, after, startCol, overlayWidth, totalWidth);
    PiecesStayApart(ps, 8);
    assert ps[..8] == ps;
    ResetClears(StyleBefore(ps, 2));
    ResetClears(StyleBefore(ps, 5));
    assert ps[0] == before && ps[3] == overlay && ps[6] == after;
    assert StyleBefore(ps, 0) == BLANK && StyleBefore(ps, 3) == BLANK && StyleBefore(ps, 6) == BLANK;
    assert StyleBefore(ps, 1) == ReadFrom(before.text, 0, BLANK);
    assert StyleBefore(ps, 4) == ReadFrom(overlay.text, 0, BLANK);
    assert StyleBefore(ps, 7) == ReadFrom(after.text, 0, BLANK);
    assert ps[2] == RESET && ps[5] == RESET;
    assert ShownApart(ps, 1) == Styled(before.text, 0, BLANK);
    assert ShownApart(ps, 2) == ShownApart(ps, 1) + Styled(ps[1].text, 0, StyleBefore(ps, 1));
    assert ShownApart(ps, 3) == ShownApart(ps, 2);
    assert ShownApart(ps, 4) == ShownApart(ps, 3) + Styled(overlay.text, 0, BLANK);
    assert ShownApart(ps, 5) == ShownApart(ps, 4) + Styled(ps[4].text, 0, StyleBefore(ps, 4));
    assert ShownApart(ps, 6) == ShownApart(ps, 5);
  }

  // ------------------------------------------------------------------ the method

  /** A line that is counted too wide is cut to the width. */
  function Trimmed(text: Str, totalWidth: int, graphemes: Segmenter): Str {
    if VisibleWidth(text, graphemes) <= totalWidth then text else SliceByColumn(text, 0, totalWidth, true, graphemes)
  }

  /** Without tabs, and with codes only between its graphemes, the line is never shown wider than the terminal. */
  lemma TrimmedFits(text: Str, totalWidth: nat, graphemes: Segmenter)
    requires IsSegmenter(graphemes) && AsciiIsPlain(graphemes) && IsPrefixStable(graphemes)
    requires TAB !in text && CodesBetweenGraphemes(text, graphemes)
    ensures VisibleWidth(Trimmed(text, totalWidth, graphemes), graphemes) <= totalWidth
  {
    hide VisibleWidth, SliceByColumn, IsSegmenter, AsciiIsPlain, IsPrefixStable, CodesBetweenGraphemes;
    SlicesFit(text, totalWidth, graphemes);
  }

  /** A strict slice from the first column is counted for no more than its length. */
  lemma SliceCounts(line: Str, length: nat, graphemes: Segmenter)
    requires IsSegmenter(graphemes) && length > 0
    ensures Sliced(line, Spans(line, 0, graphemes), |Spans(line, 0, graphemes)|, 0, length, true).width <= length
  {
    hide Spans, Sliced;
    var j := SliceIsPrefix(line, graphemes, length, |Spans(line, 0, graphemes)|);
  }

  method CompositeLineAt(baseLine: Str, overlayLine: Str, startCol: nat, overlayWidth: nat, totalWidth: int, isImage: bool,
                         graphemes: Segmenter, tracker: AnsiCodeTracker)
    returns (result: Str, ghost ps: seq<Piece>, ghost c: Cut)
    requires IsSegmenter(graphemes)
    modifies tracker
    ensures isImage ==> result == baseLine
    ensures !isImage ==>
              && result == Trimmed(TextOf(ps), totalWidth, graphemes)
              && |ps| == 8 && IsLayout(ps, Spans(baseLine, 0, graphemes), c, ps[3].width, startCol, overlayWidth, totalWidth)
              && CutBoundsHold(baseLine, graphemes, c)
              && ps[0].text == BeforeText(baseLine, Spans(baseLine, 0, graphemes), c)
              && ps[3].text == SliceByColumn(overlayLine, 0, overlayWidth, true, graphemes)
              && ps[6].text == AfterText(baseLine, Spans(baseLine, 0, graphemes), c)
  {
    hide Spans, IsCut, Sliced, VisibleWidth, IsSegmenter, Column, ActiveCodes, ReadFrom, TextOf, BeforeText, AfterText,
         SliceByColumn, CutsLine, CutBoundsHold;
    ps, c := [], Cut(0, 0, 0);
    if isImage { return baseLine, ps, c; }
    var afterStart := startCol + overlayWidth;
    var before, beforeWidth, after, afterWidth;
    before, beforeWidth, after, afterWidth, c :=
      ExtractSegments(baseLine, Window(startCol, afterStart, totalWidth - afterStart, true), graphemes, tracker);
    var overlay, shown := SliceWithWidth(overlayLine, 0, overlayWidth, true, graphemes);
    if overlayWidth > 0 { SliceCounts(overlayLine, overlayWidth, graphemes); }

    result := Compose(before, beforeWidth, overlay, shown, after, afterWidth, startCol, overlayWidth, totalWidth);
    ps := Pieces(Piece(before, beforeWidth), Piece(overlay, shown), Piece(after, afterWidth), startCol, overlayWidth, totalWidth);
    SegmentsCut(baseLine, graphemes, Around(startCol, overlayWidth, totalWidth), c);
    var width := VisibleWidth(result, graphemes);
    if width > totalWidth {
      var cut, _ := SliceWithWidth(result, 0, totalWidth, true, graphemes);
      result := cut;
    }
  }

  lemma SegmentsCut(line: Str, graphemes: Segmenter, w: Window, c: Cut)
    requires CutsLine(line, graphemes, |Spans(line, 0, graphemes)|, w, c)
    ensures IsCut(Spans(line, 0, graphemes), |Spans(line, 0, graphemes)|, w, c)
  {}

  /** The parts and the blanks that bring them to their widths. */
  method Compose(before: Str, beforeWidth: nat, overlay: Str, shown: nat, after: Str, afterWidth: nat, startCol: nat,
                 overlayWidth: nat, totalWidth: int)
    returns (result: Str)
    ensures result == TextOf(Pieces(Piece(before, beforeWidth), Piece(overlay, shown), Piece(after, afterWidth),
                                    startCol, overlayWidth, totalWidth))
  {
    hide TextOf;
    var beforePad := Max(0, startCol - beforeWidth);
    var overlayPad := Max(0, overlayWidth - shown);
    var actualBeforeWidth, actualOverlayWidth := Max(startCol, beforeWidth), Max(overlayWidth, shown);
    var afterTarget := Max(0, totalWidth - actualBeforeWidth - actualOverlayWidth);
    var afterPad := Max(0, afterTarget - afterWidth);
    result := before + Copies(SPACE, beforePad) + RESET.text + overlay + Copies(SPACE, overlayPad) + RESET.text + after
              + Copies(SPACE, afterPad);
    TextOfEight(Pieces(Piece(before, beforeWidth), Piece(overlay, shown), Piece(after, afterWidth), startCol, overlayWidth,
                       totalWidth));
    assert Copies(SPACE, 0) == [];
  }

  lemma TextOfEight(ps: seq<Piece>)
    requires |ps| == 8
    ensures TextOf(ps) == ps[0].text + ps[1].text + ps[2].text + ps[3].text + ps[4].text + ps[5].text + ps[6].text + ps[7].text
  {
    hide TextOf;
    NoText(ps[..0]);
    NextFour(ps, 0);
    NextFour(ps, 4);
    NothingFirst(ps[0].text);
    assert ps[..8] == ps;
  }

  lemma NextFour(ps: seq<Piece>, k: nat)
    requires k + 4 <= |ps|
    ensures TextOf(ps[..k + 4]) == TextOf(ps[..k]) + ps[k].text + ps[k + 1].text + ps[k + 2].text + ps[k + 3].text
  {
    hide TextOf;
    NextText(ps, k);
    NextText(ps, k + 1);
    NextText(ps, k + 2);
    NextText(ps, k + 3);
  }

  lemma NothingFirst(text: Str)
    ensures [] + text == text
  {}
}
