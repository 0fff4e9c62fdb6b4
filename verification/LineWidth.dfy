/**
 * How wide a line is once it is cut (packages/tui/src/utils.ts:198-257 and 1194-1240): the cut counts a tab as no column,
 * the visible width as three.
 */
module LineWidth {
  import opened AnsiScanner
  import opened Columns
  import opened Seams
  import opened Segments
  import opened Strings

  // ------------------------------------------------------------------ tabs among graphemes

  predicate IsTab(g: Grapheme) {
    g.text == [TAB]
  }

  /** A tab is a grapheme of its own, and takes no column. */
  predicate TabIsNarrow(g: Grapheme) {
    TAB in g.text ==> IsTab(g) && g.width == 0
  }

  function TabsIn(gs: seq<Grapheme>, k: nat): nat
    requires k <= |gs|
  {
    if k == 0 then 0 else TabsIn(gs, k - 1) + if IsTab(gs[k - 1]) then 1 else 0
  }

  /** The graphemes once tabs are three spaces. */
  function Widened(gs: seq<Grapheme>, k: nat): seq<Grapheme>
    requires k <= |gs|
  {
    if k == 0 then []
    else Widened(gs, k - 1) +
         if IsTab(gs[k - 1]) then [Grapheme([SPACE], 1), Grapheme([SPACE], 1), Grapheme([SPACE], 1)] else [gs[k - 1]]
  }

  lemma TotalOfSnoc(gs: seq<Grapheme>, g: Grapheme)
    ensures TotalWidth(gs + [g]) == TotalWidth(gs) + g.width
  {
    assert (gs + [g])[..|gs|] == gs;
  }

  lemma TotalOfThree(gs: seq<Grapheme>, g: Grapheme)
    ensures TotalWidth(gs + [g, g, g]) == TotalWidth(gs) + 3 * g.width
    ensures Joined(gs + [g, g, g]) == Joined(gs) + g.text + g.text + g.text
  {
    hide TotalWidth, Joined;
    TotalOfSnoc(gs, g);
    TotalOfSnoc(gs + [g], g);
    TotalOfSnoc(gs + [g] + [g], g);
    JoinedSnoc(gs, g);
    JoinedSnoc(gs + [g], g);
    JoinedSnoc(gs + [g] + [g], g);
    assert gs + [g] + [g] + [g] == gs + [g, g, g];
  }

  lemma {:induction false} WidenedWidth(gs: seq<Grapheme>, k: nat)
    requires k <= |gs| && forall g | g in gs :: TabIsNarrow(g)
    ensures TotalWidth(Widened(gs, k)) == TotalWidth(gs[..k]) + 3 * TabsIn(gs, k)
    decreases k
  {
    hide TotalWidth;
    if k == 0 {
      NoneWide(gs[..0]);
    } else {
      var g := gs[k - 1];
      assert g in gs && gs[..k] == gs[..k - 1] + [g];
      WidenedWidth(gs, k - 1);
      TotalOfSnoc(gs[..k - 1], g);
      if IsTab(g) {
        assert TAB in g.text;
        TotalOfThree(Widened(gs, k - 1), Grapheme([SPACE], 1));
      } else {
        TotalOfSnoc(Widened(gs, k - 1), g);
      }
    }
  }

  lemma NoneWide(gs: seq<Grapheme>)
    requires gs == []
    ensures TotalWidth(gs) == 0 && Joined(gs) == []
  {}

  lemma {:induction false} WidenedSpells(gs: seq<Grapheme>, k: nat)
    requires k <= |gs| && forall g | g in gs :: TabIsNarrow(g)
    ensures Joined(Widened(gs, k)) == ExpandTabs(Joined(gs[..k]))
    decreases k
  {
    hide Joined, ExpandTabs;
    if k == 0 {
      NoneWide(gs[..0]);
      NoneWide([]);
      NothingShown();
    } else {
      var g := gs[k - 1];
      assert g in gs && gs[..k] == gs[..k - 1] + [g];
      WidenedSpells(gs, k - 1);
      JoinedSnoc(gs[..k - 1], g);
      ExpandedTogether(Joined(gs[..k - 1]), g.text);
      if IsTab(g) {
        assert TAB in g.text;
        TotalOfThree(Widened(gs, k - 1), Grapheme([SPACE], 1));
        ExpandedHead([TAB]);
        NothingShown();
        ThreeSpaces(Joined(Widened(gs, k - 1)));
      } else {
        NothingExpanded(g.text);
        JoinedSnoc(Widened(gs, k - 1), g);
      }
    }
  }

  lemma ThreeSpaces(x: Str)
    ensures x + [SPACE] + [SPACE] + [SPACE] == x + ([SPACE, SPACE, SPACE] + [])
    ensures x + [SPACE] + [SPACE] + [SPACE] == x + [SPACE, SPACE, SPACE]
  {}

  lemma {:induction false} WidenedPrefix(gs: seq<Grapheme>, i: nat, k: nat)
    requires i <= k <= |gs|
    ensures Widened(gs, i) <= Widened(gs, k) && TabsIn(gs, i) <= TabsIn(gs, k)
    decreases k
  {
    if i < k { WidenedPrefix(gs, i, k - 1); }
  }

  // ------------------------------------------------------------------ the cut

  /** A strict cut to `width` columns keeps the first `j` spans: the end of the line, or of the columns, is reached there,
      or the next grapheme goes over it. */
  ghost predicate CutsAt(spans: seq<Span>, width: nat, j: nat) {
    && j <= |spans| && Column(spans, j) <= width && (j > 0 ==> Column(spans, j - 1) < width)
    && (j < |spans| ==> Column(spans, j) >= width || Column(spans, j + 1) > width)
  }

  lemma CutIsUnique(spans: seq<Span>, width: nat, i: nat, j: nat)
    requires CutsAt(spans, width, i) && CutsAt(spans, width, j)
    ensures i == j
  {
    hide Column;
    if i < j {
      ColumnsGrow(spans, i, j - 1);
      ColumnsGrow(spans, i + 1, j);
    } else if j < i {
      ColumnsGrow(spans, j, i - 1);
      ColumnsGrow(spans, j + 1, i);
    }
  }

  lemma CutIs(line: Str, graphemes: Segmenter, width: nat, j: nat)
    requires IsSegmenter(graphemes) && CutsAt(Spans(line, 0, graphemes), width, j)
    ensures StartOf(Spans(line, 0, graphemes), j, |line|) <= |line|
    ensures SliceByColumn(line, 0, width, true, graphemes) == line[..StartOf(Spans(line, 0, graphemes), j, |line|)]
  {
    hide Spans, Sliced, IsSegmenter;
    var spans := Spans(line, 0, graphemes);
    if width == 0 {
      FirstOfAll(spans, j);
      SlicedNone(line, graphemes, 0);
    } else {
      var i := SliceIsPrefix(line, graphemes, width, |spans|);
      hide Column;
      CutIsUnique(spans, width, i, j);
    }
  }

  lemma FirstOfAll(spans: seq<Span>, j: nat)
    requires CutsAt(spans, 0, j)
    ensures j == 0
  {}

  // ------------------------------------------------------------------ the visible width of a line up to a span

  /** Tabs and codes of the line stand between its graphemes: without codes and with tabs expanded it is cut into the same
      graphemes, a tab into three. */
  ghost predicate TabsAndCodesBetween(line: Str, graphemes: Segmenter) {
    var gs := GlyphsOf(line, Spans(line, 0, graphemes), |Spans(line, 0, graphemes)|);
    && (forall g | g in gs :: TabIsNarrow(g))
    && graphemes(ExpandTabs(Stripped(line, 0))) == Widened(gs, |gs|)
  }

  lemma {:induction false} TabbedCsiGrows(a: Str, b: Str, hasIntermediate: bool)
    requires TabbedCsiEnd(a, hasIntermediate).Some?
    ensures TabbedCsiEnd(a + b, hasIntermediate) == TabbedCsiEnd(a, hasIntermediate)
  {
    if !IsFinal(a[0]) {
      assert (a + b)[1..] == a[1..] + b;
      TabbedCsiGrows(a[1..], b, hasIntermediate || !IsParameter(a[0]));
    }
  }

  /** Tabs that make no code in a line make none in what is kept of it. */
  lemma {:induction false} TabsStayOutOfFront(s: Str, p: nat)
    requires TabsStayOut(s) && Boundary(s, 0, p) && p <= |s|
    ensures TabsStayOut(s[..p])
    decreases |s|
  {
    hide AnsiEndAt, TabMakesCode;
    if p > 0 {
      var front := s[..p];
      ScanOfPrefix(s, p, 0);
      match AnsiEndAt(s, 0) {
        case Some(end) =>
          EndsBefore(s, end, p);
          BoundaryBetween(s, 0, end, p);
          BoundaryShift(s, end, end, p);
          TabsStayOutOfFront(s[end..], p - end);
          assert s[end..][..p - end] == front[end..];
        case None =>
          StepToNext(s, p);
          TabsStayOutOfFront(s[1..], p - 1);
          assert s[1..][..p - 1] == front[1..];
          if TabMakesCode(front) { FrontMakesCode(s, p); }
      }
    }
  }

  lemma EndsBefore(s: Str, end: nat, p: nat)
    requires Boundary(s, 0, p) && 0 < p && AnsiEndAt(s, 0) == Some(end)
    ensures end <= p && Boundary(s, 0, end)
  {
    hide AnsiEndAt;
  }

  lemma StepToNext(s: Str, p: nat)
    requires Boundary(s, 0, p) && 0 < p <= |s| && AnsiEndAt(s, 0) == None
    ensures Boundary(s[1..], 0, p - 1)
  {
    hide AnsiEndAt;
    BoundaryShift(s, 1, 1, p);
  }

  lemma FrontMakesCode(s: Str, p: nat)
    requires 0 < p <= |s| && AnsiEndAt(s, 0) == None && TabMakesCode(s[..p])
    ensures TabMakesCode(s)
  {
    hide AnsiEndAt, TabbedCsiEnd;
    TabbedCsiGrows(s[..p][2..], s[p..], false);
    assert s[2..] == s[..p][2..] + s[p..];
  }

  /** Up to each of its spans a line is as wide as its columns, and three more for each tab. */
  lemma WidthUpTo(line: Str, graphemes: Segmenter, j: nat)
    requires IsSegmenter(graphemes) && AsciiIsPlain(graphemes) && IsPrefixStable(graphemes)
    requires TabsAndCodesBetween(line, graphemes) && TabsStayOut(line) && j <= |Spans(line, 0, graphemes)|
    requires StartOf(Spans(line, 0, graphemes), j, |line|) <= |line|
    ensures var spans := Spans(line, 0, graphemes);
            var gs := GlyphsOf(line, spans, j);
            VisibleWidth(line[..StartOf(spans, j, |line|)], graphemes) == Column(spans, j) + 3 * TabsIn(gs, |gs|)
  {
    hide Spans, Stripped, Boundary, VisibleWidth, AsciiIsPlain, IsSegmenter, GlyphsOf, TotalWidth, Joined, ExpandTabs, TabsStayOut,
         Widened, TabsIn, TabIsNarrow, StartOf, IsPrefixStable, Column;
    var spans := Spans(line, 0, graphemes);
    var cut, gs := line[..StartOf(spans, j, |line|)], GlyphsOf(line, spans, j);
    StartsAreBoundaries(line, graphemes, j);
    TabsStayOutOfFront(line, |cut|);
    TabsAndCodesCommute(cut);
    StrippedUpTo(line, graphemes, j);
    assert Shown(cut) == ExpandTabs(Joined(gs));
    ShownWidth(cut, graphemes);
    FrontIsWidened(line, graphemes, j);
    WidenedWidth(gs, |gs|);
    assert gs[..|gs|] == gs;
    GlyphsWidth(line, spans, j);
  }

  lemma FrontIsWidened(line: Str, graphemes: Segmenter, j: nat)
    requires IsPrefixStable(graphemes) && IsSegmenter(graphemes)
    requires TabsAndCodesBetween(line, graphemes) && j <= |Spans(line, 0, graphemes)|
    ensures var gs := GlyphsOf(line, Spans(line, 0, graphemes), j);
            && (forall g | g in gs :: TabIsNarrow(g))
            && graphemes(ExpandTabs(Joined(gs))) == Widened(gs, |gs|)
  {
    hide Spans, Stripped, IsSegmenter, GlyphsOf, Joined, ExpandTabs, Widened, TabIsNarrow;
    var spans := Spans(line, 0, graphemes);
    var all, gs := GlyphsOf(line, spans, |spans|), GlyphsOf(line, spans, j);
    GlyphsPrefix(line, spans, j, |spans|);
    assert gs == all[..|gs|] && forall g | g in gs :: g in all;
    var whole := graphemes(ExpandTabs(Stripped(line, 0)));
    WidenedPrefix(all, |gs|, |all|);
    SameWidened(all, gs, |gs|);
    var n := |Widened(gs, |gs|)|;
    assert whole[..n] == Widened(gs, |gs|);
    WidenedSpells(gs, |gs|);
    assert gs[..|gs|] == gs;
  }

  lemma {:induction false} SameWidened(all: seq<Grapheme>, gs: seq<Grapheme>, k: nat)
    requires k <= |gs| <= |all| && gs == all[..|gs|]
    ensures Widened(all, k) == Widened(gs, k) && TabsIn(all, k) == TabsIn(gs, k)
    decreases k
  {
    if k > 0 { SameWidened(all, gs, k - 1); }
  }

  /** A line whose tabs make no code is cut to a text that fits exactly when its columns, and three more for each tab kept,
      are within the width. */
  lemma CutFitsExactlyWhen(line: Str, graphemes: Segmenter, width: nat, j: nat)
    requires IsSegmenter(graphemes) && AsciiIsPlain(graphemes) && IsPrefixStable(graphemes)
    requires TabsAndCodesBetween(line, graphemes) && TabsStayOut(line) && CutsAt(Spans(line, 0, graphemes), width, j)
    ensures var gs := GlyphsOf(line, Spans(line, 0, graphemes), j);
            VisibleWidth(SliceByColumn(line, 0, width, true, graphemes), graphemes) <= width <==>
            Column(Spans(line, 0, graphemes), j) + 3 * TabsIn(gs, |gs|) <= width
  {
    hide *;
    CutIs(line, graphemes, width, j);
    CutBounds(Spans(line, 0, graphemes), width, j);
    WidthUpTo(line, graphemes, j);
  }

  lemma CutBounds(spans: seq<Span>, width: nat, j: nat)
    requires CutsAt(spans, width, j)
    ensures j <= |spans| && Column(spans, j) <= width
  {}

  /** The whole line is at least as wide as its front, so a line that fits uncut is within the width when cut. */
  lemma UncutFits(line: Str, graphemes: Segmenter, width: nat, j: nat)
    requires IsSegmenter(graphemes) && AsciiIsPlain(graphemes) && IsPrefixStable(graphemes)
    requires TabsAndCodesBetween(line, graphemes) && TabsStayOut(line) && j <= |Spans(line, 0, graphemes)|
    requires VisibleWidth(line, graphemes) <= width
    ensures var gs := GlyphsOf(line, Spans(line, 0, graphemes), j);
            Column(Spans(line, 0, graphemes), j) + 3 * TabsIn(gs, |gs|) <= width
  {
    hide Spans, VisibleWidth, AsciiIsPlain, IsSegmenter, GlyphsOf, TabsStayOut, TabsIn, IsPrefixStable, TabsAndCodesBetween, Column;
    var spans := Spans(line, 0, graphemes);
    var all, gs := GlyphsOf(line, spans, |spans|), GlyphsOf(line, spans, j);
    WidthUpTo(line, graphemes, |spans|);
    assert line[..|line|] == line;
    ColumnsGrow(spans, j, |spans|);
    GlyphsPrefix(line, spans, j, |spans|);
    SameWidened(all, gs, |gs|);
    WidenedPrefix(all, |gs|, |all|);
  }
}
