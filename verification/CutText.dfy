/**
 * The visible width of what truncation returns (packages/tui/src/utils.ts:131-149 and 1046-1183): codes, tabs and an
 * ellipsis with codes included. Between prefix, ellipsis and padding stand resets, which end no control string that the
 * prefix leaves open; the ellipsis may.
 */
module CutText {
  import opened AnsiScanner
  import opened Columns
  import opened Seams
  import opened Strings
  import opened Truncate
  import S = Segments

  // ------------------------------------------------------------------ what pieces show

  /** The pieces without the codes. */
  function PlainOf(ps: seq<Piece>, k: nat): Str
    requires k <= |ps|
  {
    if k == 0 then [] else PlainOf(ps, k - 1) + if ps[k - 1].Code? then [] else ps[k - 1].text
  }

  /** The graphemes of a piece: a tab counts as three spaces. */
  function GlyphsOfPiece(p: Piece): seq<S.Grapheme> {
    if p.Code? then []
    else if p == Glyph([TAB], TAB_WIDTH) then [S.Grapheme([SPACE], 1), S.Grapheme([SPACE], 1), S.Grapheme([SPACE], 1)]
    else [S.Grapheme(p.text, p.width)]
  }

  function GlyphsIn(ps: seq<Piece>, k: nat): seq<S.Grapheme>
    requires k <= |ps|
  {
    if k == 0 then [] else GlyphsIn(ps, k - 1) + GlyphsOfPiece(ps[k - 1])
  }

  lemma {:induction false} WidthConcat(a: seq<S.Grapheme>, b: seq<S.Grapheme>)
    ensures TotalWidth(a + b) == TotalWidth(a) + TotalWidth(b)
    decreases |b|
  {
    var both := a + b;
    if b == [] {
      assert both == a;
    } else {
      assert both[..|both| - 1] == a + b[..|b| - 1];
      WidthConcat(a, b[..|b| - 1]);
    }
  }

  lemma PieceWidth(p: Piece)
    ensures TotalWidth(GlyphsOfPiece(p)) == p.Width()
  {
    var one := S.Grapheme([SPACE], 1);
    WidthConcat([one, one], [one]);
    WidthConcat([one], [one]);
    assert [one, one] + [one] == [one, one, one] && [one] + [one] == [one, one];
    assert TotalWidth([one]) == 1;
  }

  /** The columns counted while scanning are those of the graphemes shown. */
  lemma {:induction false} GlyphsInWidth(ps: seq<Piece>, k: nat)
    requires k <= |ps|
    ensures TotalWidth(GlyphsIn(ps, k)) == Width(ps, k)
  {
    hide TotalWidth, GlyphsOfPiece;
    if k == 0 {
      NoWidth();
    } else {
      GlyphsInWidth(ps, k - 1);
      PieceWidth(ps[k - 1]);
      WidthConcat(GlyphsIn(ps, k - 1), GlyphsOfPiece(ps[k - 1]));
    }
  }

  lemma NoWidth()
    ensures TotalWidth([]) == 0
  {}

  lemma {:induction false} JoinedConcat(a: seq<S.Grapheme>, b: seq<S.Grapheme>)
    ensures S.Joined(a + b) == S.Joined(a) + S.Joined(b)
  {
    if a == [] {
      assert a + b == b;
    } else {
      assert (a + b)[1..] == a[1..] + b;
      JoinedConcat(a[1..], b);
    }
  }

  /** A tab is a piece of its own. */
  predicate TabAlone(p: Piece) {
    p.Glyph? ==> p == Glyph([TAB], TAB_WIDTH) || TAB !in p.text
  }

  lemma {:induction false} PartOfJoined(gs: seq<S.Grapheme>)
    ensures forall g, u | g in gs && u in g.text :: u in S.Joined(gs)
  {
    if gs != [] {
      PartOfJoined(gs[1..]);
      assert gs == [gs[0]] + gs[1..];
    }
  }

  lemma {:induction false} TabsStandAlone(text: Str, i: nat, graphemes: S.Segmenter)
    requires S.IsSegmenter(graphemes) && i <= |text|
    ensures forall p | p in Pieces(text, i, graphemes) :: TabAlone(p)
    decreases |text| - i
  {
    hide AnsiEndAt, RunEnd;
    if i < |text| {
      match AnsiEndAt(text, i) {
        case Some(end) => TabsStandAlone(text, end, graphemes);
        case None =>
          if text[i] == TAB {
            TabsStandAlone(text, i + 1, graphemes);
          } else {
            var end := RunEnd(text, i);
            PiecesOfRun(text, i, graphemes);
            NoTabInRun(text, i, graphemes(text[i..end]));
            TabsStandAlone(text, end, graphemes);
          }
      }
    }
  }

  lemma {:induction false} RunIsPlain(text: Str, i: nat)
    requires i <= |text|
    ensures forall j | i <= j < RunEnd(text, i) :: text[j] != TAB && AnsiEndAt(text, j) == None
    decreases |text| - i
  {
    hide AnsiEndAt;
    if i < RunEnd(text, i) { RunIsPlain(text, i + 1); }
  }

  lemma NoTabInRun(text: Str, i: nat, gs: seq<S.Grapheme>)
    requires i <= |text| && S.Joined(gs) == text[i..RunEnd(text, i)]
    ensures forall p | p in Glyphs(gs) :: TabAlone(p)
  {
    hide AnsiEndAt;
    RunIsPlain(text, i);
    PartOfJoined(gs);
    assert forall u | u in text[i..RunEnd(text, i)] :: u != TAB;
    forall p | p in Glyphs(gs)
      ensures TabAlone(p)
    {
      var k :| 0 <= k < |gs| && Glyphs(gs)[k] == p;
      assert gs[k] in gs;
      assert forall u | u in gs[k].text :: u in S.Joined(gs);
    }
  }

  lemma PiecesOfRun(text: Str, i: nat, graphemes: S.Segmenter)
    requires i < |text| && AnsiEndAt(text, i) == None && text[i] != TAB
    ensures i < RunEnd(text, i)
    ensures Pieces(text, i, graphemes) ==
            Glyphs(graphemes(text[i..RunEnd(text, i)])) + Pieces(text, RunEnd(text, i), graphemes)
  {
    hide AnsiEndAt, Glyphs;
  }

  lemma {:induction false} ExpandedPieces(ps: seq<Piece>, k: nat)
    requires k <= |ps| && forall p | p in ps :: TabAlone(p)
    ensures S.Joined(GlyphsIn(ps, k)) == ExpandTabs(PlainOf(ps, k))
  {
    hide ExpandTabs, S.Joined, GlyphsOfPiece;
    if k == 0 {
      NothingExpandedOrJoined();
    } else {
      var p := ps[k - 1];
      assert p in ps;
      ExpandedPieces(ps, k - 1);
      ExpandedPiece(p);
      JoinedConcat(GlyphsIn(ps, k - 1), GlyphsOfPiece(p));
      ExpandedTogether(PlainOf(ps, k - 1), if p.Code? then [] else p.text);
    }
  }

  lemma NothingExpandedOrJoined()
    ensures S.Joined([]) == [] && ExpandTabs([]) == []
  {}

  lemma ExpandedPiece(p: Piece)
    requires TabAlone(p)
    ensures S.Joined(GlyphsOfPiece(p)) == ExpandTabs(if p.Code? then [] else p.text)
  {
    hide S.Joined, ExpandTabs;
    NothingExpandedOrJoined();
    if p == Glyph([TAB], TAB_WIDTH) {
      var one := S.Grapheme([SPACE], 1);
      JoinedConcat([one], [one, one]);
      JoinedConcat([one], [one]);
      JoinedOne(one);
      ExpandedHead([TAB]);
      assert [one] + [one] == [one, one] && [one] + [one, one] == [one, one, one];
    } else if p.Glyph? {
      NothingExpanded(p.text);
      JoinedOne(S.Grapheme(p.text, p.width));
    }
  }

  lemma JoinedOne(g: S.Grapheme)
    ensures S.Joined([g]) == g.text
  {
    var nothing: seq<S.Grapheme> := [g][1..];
    assert nothing == [] && g.text + [] == g.text;
  }

  // ------------------------------------------------------------------ what the kept text shows

  lemma Regroup(x: Str, y: Str, z: Str)
    ensures (x + y) + z == x + (y + z)
  {}

  lemma {:induction false} FrontSplit(head: seq<Piece>, rest: seq<Piece>, n: nat)
    requires n <= |rest|
    ensures TextOf(head + rest, |head| + n) == TextOf(head, |head|) + TextOf(rest, n)
    ensures PlainOf(head + rest, |head| + n) == PlainOf(head, |head|) + PlainOf(rest, n)
    decreases n
  {
    if n == 0 {
      SameFront(head + rest, head, |head|);
    } else {
      FrontSplit(head, rest, n - 1);
      var p, both := rest[n - 1], head + rest;
      assert both[|head| + n - 1] == p;
      assert TextOf(both, |head| + n) == (TextOf(head, |head|) + TextOf(rest, n - 1)) + p.text;
      hide TextOf, PlainOf;
      Regroup(TextOf(head, |head|), TextOf(rest, n - 1), p.text);
      Regroup(PlainOf(head, |head|), PlainOf(rest, n - 1), if p.Code? then [] else p.text);
    }
  }

  lemma {:induction false} SameFront(ps: seq<Piece>, qs: seq<Piece>, k: nat)
    requires k <= |ps| && k <= |qs| && forall j | 0 <= j < k :: ps[j] == qs[j]
    ensures TextOf(ps, k) == TextOf(qs, k) && PlainOf(ps, k) == PlainOf(qs, k)
    decreases k
  {
    if k > 0 { SameFront(ps, qs, k - 1); }
  }

  lemma {:induction false} GlyphsArePlain(gs: seq<S.Grapheme>, k: nat)
    requires k <= |gs|
    ensures TextOf(Glyphs(gs), k) == PlainOf(Glyphs(gs), k) == S.Joined(gs[..k])
    decreases k
  {
    hide Glyphs;
    if k > 0 {
      GlyphsArePlain(gs, k - 1);
      assert gs[..k] == gs[..k - 1] + [gs[k - 1]];
      JoinedSnoc(gs[..k - 1], gs[k - 1]);
    }
  }

  /** A run without codes at `i` of the text, and what follows it there. */
  lemma RunReads(text: Str, i: nat, a: Str, b: Str)
    requires i <= |text| && a + b <= text[i..] && forall j | i <= j < i + |a| :: AnsiEndAt(text, j) == None
    ensures Stripped(a + b, 0) == a + Stripped(b, 0)
  {
    hide AnsiEndAt, Stripped, S.Boundary;
    var t, rest := a + b, text[i..];
    assert rest[..|t|] == t && t[..|a|] == a;
    forall j: nat | j < |a|
      ensures AnsiEndAt(t, j) == None && AnsiEndAt(a, j) == None
    {
      ScanLooksForward(text, i, i + j);
      ScanOfPrefix(rest, |t|, j);
      ScanOfPrefix(t, |a|, j);
    }
    AtStart(t);
    S.BoundaryRun(t, 0, 0, |a|);
    StrippedApart(a, b);
    StrippedRun(a, 0);
    assert a[0..] == a;
  }

  lemma CodeReads(text: Str, i: nat, end: nat, b: Str)
    requires AnsiEndAt(text, i) == Some(end) && text[i..end] + b <= text[i..]
    ensures Stripped(text[i..end] + b, 0) == Stripped(b, 0)
  {
    hide AnsiEndAt, Stripped;
    var t := text[i..end] + b;
    assert t[0..end - i] == text[i..end];
    ScanIsLocal(text, i, t, 0);
    StrippedOfCode(t, end - i);
    assert t[end - i..] == b;
  }

  /** The first `k` pieces stand at `i` of the text, and without its codes their text is what the others spell. */
  ghost predicate ReadsAsPieces(text: Str, i: nat, ps: seq<Piece>, k: nat) {
    && i <= |text| && k <= |ps|
    && TextOf(ps, k) <= text[i..] && Stripped(TextOf(ps, k), 0) == PlainOf(ps, k)
  }

  lemma CodeInFront(text: Str, i: nat, end: nat, rest: seq<Piece>, n: nat)
    requires ReadsAsPieces(text, end, rest, n) && AnsiEndAt(text, i) == Some(end)
    ensures ReadsAsPieces(text, i, [Code(text[i..end])] + rest, n + 1)
  {
    hide AnsiEndAt, TextOf, PlainOf, Stripped;
    var code, b := Code(text[i..end]), TextOf(rest, n);
    FrontSplit([code], rest, n);
    OnePiece(code);
    PrefixBehind(text, i, end, b);
    CodeReads(text, i, end, b);
  }

  lemma PlainInFront(text: Str, i: nat, end: nat, head: seq<Piece>, rest: seq<Piece>, n: nat)
    requires ReadsAsPieces(text, end, rest, n) && i <= end && forall j | i <= j < end :: AnsiEndAt(text, j) == None
    requires TextOf(head, |head|) == PlainOf(head, |head|) == text[i..end]
    ensures ReadsAsPieces(text, i, head + rest, |head| + n)
  {
    hide AnsiEndAt, TextOf, PlainOf, Stripped;
    FrontSplit(head, rest, n);
    PrefixBehind(text, i, end, TextOf(rest, n));
    RunReads(text, i, text[i..end], TextOf(rest, n));
  }

  /** Without its codes, what is kept of a text is what its other pieces spell. */
  lemma {:induction false} KeptReads(text: Str, i: nat, graphemes: S.Segmenter, m: nat)
    requires S.IsSegmenter(graphemes) && i <= |text| && m <= |Pieces(text, i, graphemes)|
    ensures ReadsAsPieces(text, i, Pieces(text, i, graphemes), m)
    decreases |text| - i
  {
    hide AnsiEndAt, Glyphs, RunEnd, ReadsAsPieces, TextOf, PlainOf;
    if m == 0 {
      NoneKept(text, i, Pieces(text, i, graphemes));
    } else {
      match AnsiEndAt(text, i) {
        case Some(end) =>
          KeptReads(text, end, graphemes, m - 1);
          CodeInFront(text, i, end, Pieces(text, end, graphemes), m - 1);
        case None =>
          if text[i] == TAB {
            var tab := Glyph([TAB], TAB_WIDTH);
            KeptReads(text, i + 1, graphemes, m - 1);
            OnePiece(tab);
            assert text[i..i + 1] == [TAB];
            PlainInFront(text, i, i + 1, [tab], Pieces(text, i + 1, graphemes), m - 1);
          } else {
            KeptOfRun(text, i, graphemes, m);
          }
      }
    }
  }

  lemma NoneKept(text: Str, i: nat, ps: seq<Piece>)
    requires i <= |text|
    ensures ReadsAsPieces(text, i, ps, 0)
  {}

  lemma NothingKept(ps: seq<Piece>)
    ensures TextOf(ps, 0) == [] && PlainOf(ps, 0) == [] && Stripped([], 0) == []
  {}

  lemma OnePiece(p: Piece)
    ensures TextOf([p], 1) == p.text && PlainOf([p], 1) == if p.Code? then [] else p.text
  {
    assert TextOf([p], 1) == TextOf([p], 0) + p.text;
    assert PlainOf([p], 1) == PlainOf([p], 0) + if p.Code? then [] else p.text;
  }

  lemma PrefixBehind(text: Str, i: nat, end: nat, b: Str)
    requires i <= end <= |text| && b <= text[end..]
    ensures text[i..end] + b <= text[i..]
  {
    assert text[i..] == text[i..end] + text[end..];
  }

  lemma PartOfRun(text: Str, i: nat, end: nat, gs: seq<S.Grapheme>, m: nat)
    requires i <= end <= |text| && S.Joined(gs) == text[i..end] && m <= |gs|
    requires forall j | i <= j < end :: AnsiEndAt(text, j) == None
    ensures S.Joined(gs[..m]) <= text[i..] && Stripped(S.Joined(gs[..m]), 0) == S.Joined(gs[..m])
  {
    hide AnsiEndAt, Stripped, S.Joined;
    var a, none: Str := S.Joined(gs[..m]), [];
    JoinedConcat(gs[..m], gs[m..]);
    assert gs == gs[..m] + gs[m..];
    assert a + none == a <= text[i..end] <= text[i..];
    RunReads(text, i, a, none);
    NothingKept([]);
  }

  lemma KeptOfRun(text: Str, i: nat, graphemes: S.Segmenter, m: nat)
    requires S.IsSegmenter(graphemes) && i < |text| && m <= |Pieces(text, i, graphemes)|
    requires AnsiEndAt(text, i) == None && text[i] != TAB
    ensures ReadsAsPieces(text, i, Pieces(text, i, graphemes), m)
    decreases |text| - i, 0
  {
    hide AnsiEndAt, TextOf, PlainOf, Stripped, Glyphs, RunEnd, Pieces;
    var end, ps := RunEnd(text, i), Pieces(text, i, graphemes);
    var gs, rest := graphemes(text[i..end]), Pieces(text, end, graphemes);
    PiecesOfRun(text, i, graphemes);
    RunIsPlain(text, i);
    if m <= |gs| {
      SameFront(ps, Glyphs(gs), m);
      GlyphsArePlain(gs, m);
      PartOfRun(text, i, end, gs, m);
    } else {
      KeptReads(text, end, graphemes, m - |gs|);
      GlyphsArePlain(gs, |gs|);
      assert gs[..|gs|] == gs;
      PlainInFront(text, i, end, Glyphs(gs), rest, m - |gs|);
    }
  }

  /** The kept text shows the graphemes it was cut into, exactly when no tab in it makes a code. */
  lemma KeptShowsItsPieces(text: Str, graphemes: S.Segmenter, m: nat)
    requires S.IsSegmenter(graphemes) && m <= |Pieces(text, 0, graphemes)|
    ensures var ps := Pieces(text, 0, graphemes);
            Shown(TextOf(ps, m)) == S.Joined(GlyphsIn(ps, m)) <==> TabsStayOut(TextOf(ps, m))
  {
    hide Pieces, TextOf, PlainOf, GlyphsIn, Stripped, Shown, TabsStayOut;
    var ps := Pieces(text, 0, graphemes);
    KeptReads(text, 0, graphemes, m);
    TabsAndCodesCommute(TextOf(ps, m));
    TabsStandAlone(text, 0, graphemes);
    ExpandedPieces(ps, m);
  }

  // ------------------------------------------------------------------ what stands behind the kept text

  /** The reset and the padding behind an ellipsis, or behind a text. */
  function Closing(reset: bool, padding: Str): Str {
    (if reset then SGR_RESET else []) + padding
  }

  /** All that follows the kept text `p`. */
  function Behind(p: Str, ellipsis: Str, padding: Str): Str {
    (if ESC in p then SGR_RESET else []) +
    (ellipsis + Closing(ellipsis != [] && (ESC in p || ESC in ellipsis), padding))
  }

  predicate IsSpaces(padding: Str) {
    forall u | u in padding :: u == SPACE
  }

  lemma {:induction false} SpacesEndNoCsi(padding: Str, j: nat, hasIntermediate: bool)
    requires IsSpaces(padding)
    ensures CsiEnd(padding, j, hasIntermediate) == None
    decreases |padding| - j
  {
    if j < |padding| {
      assert padding[j] in padding;
      SpacesEndNoCsi(padding, j + 1, true);
    }
  }

  lemma {:induction false} SpacesEndNoString(padding: Str, j: nat, allowBel: bool)
    requires IsSpaces(padding)
    ensures ControlStringEnd(padding, j, allowBel) == None
    decreases |padding| - j
  {
    if j < |padding| {
      assert padding[j] in padding;
      SpacesEndNoString(padding, j + 1, allowBel);
    }
  }

  lemma SpacesShown(padding: Str)
    requires IsSpaces(padding)
    ensures ESC !in padding && TAB !in padding && Stripped(padding, 0) == padding && ExpandTabs(padding) == padding
  {
    NothingStripped(padding, 0);
    NothingExpanded(padding);
    assert padding[0..] == padding;
  }

  /** A reset shows nothing and ends no string. */
  lemma ResetGone(x: Str)
    ensures Seals(SGR_RESET + x)
    ensures Stripped(SGR_RESET + x, 0) == Stripped(x, 0)
    ensures forall allowBel :: ControlStringEnd(SGR_RESET + x, 0, allowBel) ==
                               match ControlStringEnd(x, 0, allowBel) case None => None case Some(end) => Some(4 + end)
  {
    var t := SGR_RESET + x;
    assert t[0] == ESC && t[1] == LEFT_BRACKET && t[2] == 0x30 && t[3] == 0x6d;
    ResetIsCode(t);
    hide CsiEnd;
    StrippedOfCode(t, 4);
    assert t[4..] == x;
    forall allowBel
      ensures ControlStringEnd(t, 0, allowBel) ==
              match ControlStringEnd(x, 0, allowBel) case None => None case Some(end) => Some(4 + end)
    {
      StringEndAfter(SGR_RESET, x, 4, allowBel);
      assert ControlStringEnd(t, 0, allowBel) == ControlStringEnd(t, 1, allowBel) == ControlStringEnd(t, 2, allowBel)
          == ControlStringEnd(t, 3, allowBel) == ControlStringEnd(t, 4, allowBel);
    }
  }

  lemma ResetIsCode(t: Str)
    requires |t| >= 4 && t[..4] == SGR_RESET
    ensures AnsiEndAt(t, 0) == Some(4)
    ensures CsiEnd(t, 0, false) == None && CsiEnd(t, 0, true) == None
  {
    assert t[0] == t[..4][0] && t[1] == t[..4][1] && t[2] == t[..4][2] && t[3] == t[..4][3];
    assert CsiEnd(t, 2, false) == CsiEnd(t, 3, false) == Some(4);
  }

  /** A closing shows its padding, and ends nothing before it. */
  lemma ClosingIsQuiet(reset: bool, padding: Str)
    requires IsSpaces(padding)
    ensures Seals(Closing(reset, padding)) && Stripped(Closing(reset, padding), 0) == padding
    ensures forall allowBel :: ControlStringEnd(Closing(reset, padding), 0, allowBel) == None
  {
    hide Stripped, ControlStringEnd, CsiEnd;
    SpacesShown(padding);
    forall allowBel
      ensures ControlStringEnd(padding, 0, allowBel) == None
    {
      SpacesEndNoString(padding, 0, allowBel);
    }
    if reset {
      ResetGone(padding);
    } else {
      assert Closing(reset, padding) == padding;
      SpacesEndNoCsi(padding, 0, false);
      SpacesEndNoCsi(padding, 0, true);
      assert padding != [] ==> padding[0] in padding;
    }
  }

  /** Behind an ellipsis (or a text) a closing leaves everything as it is. */
  lemma ThenClosing(e: Str, reset: bool, padding: Str)
    requires IsSpaces(padding)
    ensures Stripped(e + Closing(reset, padding), 0) == Stripped(e, 0) + padding
    ensures EndAlike(e + Closing(reset, padding), e)
    ensures EndsWhole(e) ==> EndsWhole(e + Closing(reset, padding))
  {
    hide Stripped, ControlStringEnd, Seals, Closing, S.Boundary, EndsOpen;
    var tail := Closing(reset, padding);
    ClosingIsQuiet(reset, padding);
    NoneEnds();
    NothingEnded(e, 0, []);
    StandsAtSeam(e, 0, [], tail);
    StrippedApart(e, tail);
    FrontEnds(e, tail);
    if EndsWhole(e) { ThenClosingEndsWhole(e, tail); }
  }

  lemma ThenClosingEndsWhole(e: Str, tail: Str)
    requires Seals(tail) && (forall allowBel :: ControlStringEnd(tail, 0, allowBel) == None) && EndsWhole(e)
    ensures EndsWhole(e + tail)
  {
    hide Stripped, ControlStringEnd, Seals, S.Boundary;
    forall allowBel
      ensures match ControlStringEnd(e + tail, 0, allowBel) case None => true case Some(end) => S.Boundary(e + tail, 0, end)
    {
      match ControlStringEnd(e, 0, allowBel) {
        case None => StringLeftOpen(e, tail, 0, allowBel);
        case Some(end) =>
          ControlStringEndMoves(e, 0, e + tail, 0, allowBel);
          BoundaryInFront(e, tail, 0, end);
      }
    }
  }

  lemma NoneEnds()
    ensures forall allowBel :: ControlStringEnd([], 0, allowBel) == None
  {}

  lemma ResetEndsWhole(x: Str)
    requires EndsWhole(x)
    ensures EndsWhole(SGR_RESET + x)
  {
    hide ControlStringEnd, S.Boundary, Seals, Stripped;
    var t := SGR_RESET + x;
    ResetGone(x);
    forall allowBel
      ensures match ControlStringEnd(t, 0, allowBel) case None => true case Some(end) => S.Boundary(t, 0, end)
    {
      match ControlStringEnd(x, 0, allowBel) {
        case None =>
        case Some(end) => BoundaryAfterReset(x, end);
      }
    }
  }

  lemma BoundaryAfterReset(x: Str, p: nat)
    requires S.Boundary(x, 0, p)
    ensures S.Boundary(SGR_RESET + x, 0, 4 + p)
  {
    var t := SGR_RESET + x;
    assert t[..4] == SGR_RESET && t[4..] == x;
    ResetIsCode(t);
    hide AnsiEndAt;
    BoundaryBehind(t, 4, 4, 4 + p);
  }

  /**
   * The kept text `p`, what follows it, and the seam between them: a reader stands there exactly when the ellipsis ends
   * no control string that `p` leaves open, and then every part shows what it shows alone.
   */
  lemma PartsRead(p: Str, e: Str, padding: Str)
    requires IsSpaces(padding)
    ensures S.Boundary(p + Behind(p, e, padding), 0, |p|) <==> !EndsOpen(p, 0, e)
    ensures !EndsOpen(p, 0, e) ==> Stripped(p + Behind(p, e, padding), 0) == Stripped(p, 0) + Stripped(e, 0) + padding
    ensures EndsOpen(p, 0, e) && EndsWhole(e) ==>
              |Stripped(p + Behind(p, e, padding), 0)| < |Stripped(p, 0)| + |Stripped(e, 0)| + |padding|
  {
    hide Stripped, ControlStringEnd, Seals, Closing, S.Boundary, EndsOpen, EndsWhole;
    var tail, reset := Behind(p, e, padding), e != [] && (ESC in p || ESC in e);
    var rest := e + Closing(reset, padding);
    ThenClosing(e, reset, padding);
    if ESC in p {
      ResetGone(rest);
      assert EndAlike(tail, e);
      StandsAtSeam(p, 0, e, tail);
      if EndsOpen(p, 0, e) && EndsWhole(e) {
        ResetEndsWhole(rest);
        Swallowed(p, 0, e, tail);
      }
    } else {
      assert tail == rest;
      PlainThen(p, tail);
      NothingOpen(p, 0, e);
    }
    if !EndsOpen(p, 0, e) {
      StrippedApart(p, tail);
      Regroup(Stripped(p, 0), Stripped(e, 0), padding);
    }
  }

  // ------------------------------------------------------------------ the truncated text

  lemma ResultIs(prefix: Str, prefixWidth: nat, ellipsis: Str, ellipsisWidth: nat, maxWidth: nat, pad: bool)
    ensures FinalizeTruncatedResult(prefix, prefixWidth, ellipsis, ellipsisWidth, maxWidth, pad) ==
            prefix + Behind(prefix, ellipsis, Padding(pad, maxWidth, prefixWidth + ellipsisWidth))
  {
    hide Padding;
    var padding := Padding(pad, maxWidth, prefixWidth + ellipsisWidth);
    var before: Str := if ESC in prefix then SGR_RESET else [];
    var after: Str := if ESC in prefix || ESC in ellipsis then SGR_RESET else [];
    if ellipsis == [] {
      assert prefix + before + padding == prefix + (before + ([] + ([] + padding)));
    } else {
      assert prefix + before + ellipsis + after + padding == prefix + (before + (ellipsis + (after + padding)));
    }
  }

  lemma {:induction false} EscapesStay(s: Str)
    ensures ESC in ExpandTabs(s) <==> ESC in s
    ensures ExpandTabs(s) == [] <==> s == []
  {
    if s != [] { EscapesStay(s[1..]); }
  }

  lemma ExpandedBehind(prefix: Str, ellipsis: Str, padding: Str)
    requires IsSpaces(padding)
    ensures ExpandTabs(prefix + Behind(prefix, ellipsis, padding)) ==
            ExpandTabs(prefix) + Behind(ExpandTabs(prefix), ExpandTabs(ellipsis), padding)
  {
    hide ExpandTabs;
    var reset := ellipsis != [] && (ESC in prefix || ESC in ellipsis);
    var before: Str, after: Str := if ESC in prefix then SGR_RESET else [], if reset then SGR_RESET else [];
    EscapesStay(prefix);
    EscapesStay(ellipsis);
    SpacesShown(padding);
    NothingExpanded(before);
    NothingExpanded(after);
    ExpandedTogether(prefix, Behind(prefix, ellipsis, padding));
    ExpandedTogether(before, ellipsis + Closing(reset, padding));
    ExpandedTogether(ellipsis, Closing(reset, padding));
    ExpandedTogether(after, padding);
  }

  lemma PaddingIsSpaces(pad: bool, maxWidth: nat, width: nat)
    ensures IsSpaces(Padding(pad, maxWidth, width))
    ensures width <= maxWidth ==> width + |Padding(pad, maxWidth, width)| <= maxWidth
    ensures width <= maxWidth && pad ==> width + |Padding(pad, maxWidth, width)| == maxWidth
  {}

  /** The ellipsis ends no control string that the kept text leaves open. */
  predicate SafeEllipsis(prefix: Str, ellipsis: Str) {
    !EndsOpen(ExpandTabs(prefix), 0, ExpandTabs(ellipsis))
  }

  /**
   * What a truncated text shows: exactly when the ellipsis ends no control string left open, it is read as its parts, the
   * kept text, the ellipsis and the padding, with nothing between them.
   */
  lemma ResultShowsItsParts(prefix: Str, prefixWidth: nat, ellipsis: Str, ellipsisWidth: nat, maxWidth: nat, pad: bool)
    ensures var result := FinalizeTruncatedResult(prefix, prefixWidth, ellipsis, ellipsisWidth, maxWidth, pad);
            var padding := Padding(pad, maxWidth, prefixWidth + ellipsisWidth);
            && (S.Boundary(ExpandTabs(result), 0, |ExpandTabs(prefix)|) <==> SafeEllipsis(prefix, ellipsis))
            && (SafeEllipsis(prefix, ellipsis) ==> Shown(result) == Shown(prefix) + Shown(ellipsis) + padding)
            && (EndsWhole(ExpandTabs(ellipsis)) ==>
                  (Shown(result) == Shown(prefix) + Shown(ellipsis) + padding <==> SafeEllipsis(prefix, ellipsis)))
  {
    hide Stripped, ExpandTabs, S.Boundary, EndsOpen, EndsWhole, FinalizeTruncatedResult, Behind, Padding, IsSpaces;
    var padding := Padding(pad, maxWidth, prefixWidth + ellipsisWidth);
    ResultIs(prefix, prefixWidth, ellipsis, ellipsisWidth, maxWidth, pad);
    PaddingIsSpaces(pad, maxWidth, prefixWidth + ellipsisWidth);
    ExpandedBehind(prefix, ellipsis, padding);
    PartsRead(ExpandTabs(prefix), ExpandTabs(ellipsis), padding);
  }

  /** An ellipsis without escape characters ends control strings at places where its reader stands. */
  lemma PlainEndsWhole(e: Str)
    requires ESC !in e
    ensures EndsWhole(e)
  {
    hide ControlStringEnd, S.Boundary;
    forall allowBel
      ensures match ControlStringEnd(e, 0, allowBel) case None => true case Some(end) => S.Boundary(e, 0, end)
    {
      match ControlStringEnd(e, 0, allowBel) {
        case None =>
        case Some(end) =>
          PlainThen(e[..end], e[end..]);
          assert e[..end] + e[end..] == e;
      }
    }
  }

  // ------------------------------------------------------------------ the width of the result

  /** Without codes and with its tabs expanded, no grapheme is shared between two pieces, or across a seam. */
  ghost predicate GraphemesStayApart(ps: seq<Piece>, k: nat, ellipsis: Str, padding: Str, graphemes: S.Segmenter)
    requires k <= |ps|
  {
    graphemes(S.Joined(GlyphsIn(ps, k)) + Shown(ellipsis) + padding) ==
    GlyphsIn(ps, k) + graphemes(Shown(ellipsis)) + graphemes(padding)
  }

  /** The first `k` pieces, the ellipsis and the padding neither make codes out of tabs, nor end strings, nor share graphemes. */
  ghost predicate StayApart(ps: seq<Piece>, k: nat, ellipsis: Str, padding: Str, graphemes: S.Segmenter) {
    && k <= |ps| && TabsStayOut(TextOf(ps, k)) && SafeEllipsis(TextOf(ps, k), ellipsis)
    && GraphemesStayApart(ps, k, ellipsis, padding, graphemes)
  }

  lemma SpacesAreWide(padding: Str, graphemes: S.Segmenter)
    requires AsciiIsPlain(graphemes) && IsSpaces(padding)
    ensures TotalWidth(graphemes(padding)) == |padding|
  {
    assert forall i | 0 <= i < |padding| :: padding[i] in padding;
    assert IsPrintableAscii(padding);
    OnesWidth(graphemes(padding), padding);
  }

  lemma WidthsAddUp(result: Str, text: Str, ps: seq<Piece>, k: nat, ellipsis: Str, padding: Str, graphemes: S.Segmenter)
    requires S.IsSegmenter(graphemes) && AsciiIsPlain(graphemes) && IsSpaces(padding)
    requires ps == Pieces(text, 0, graphemes) && StayApart(ps, k, ellipsis, padding, graphemes)
    requires Shown(result) == Shown(TextOf(ps, k)) + Shown(ellipsis) + padding
    ensures VisibleWidth(result, graphemes) == Width(ps, k) + VisibleWidth(ellipsis, graphemes) + |padding|
  {
    hide Pieces, Width, TextOf, GlyphsIn, TotalWidth, Shown, TabsStayOut, SafeEllipsis, VisibleWidth, AsciiIsPlain, S.IsSegmenter, S.Joined;
    KeptShowsItsPieces(text, graphemes, k);
    GlyphsInWidth(ps, k);
    ShownWidth(result, graphemes);
    ShownWidth(ellipsis, graphemes);
    SpacesAreWide(padding, graphemes);
    WidthConcat(GlyphsIn(ps, k) + graphemes(Shown(ellipsis)), graphemes(padding));
    WidthConcat(GlyphsIn(ps, k), graphemes(Shown(ellipsis)));
  }

  lemma ResultShows(prefix: Str, prefixWidth: nat, ellipsis: Str, ellipsisWidth: nat, maxWidth: nat, pad: bool, result: Str,
                    padding: Str)
    requires result == FinalizeTruncatedResult(prefix, prefixWidth, ellipsis, ellipsisWidth, maxWidth, pad)
    requires padding == Padding(pad, maxWidth, prefixWidth + ellipsisWidth) && SafeEllipsis(prefix, ellipsis)
    ensures Shown(result) == Shown(prefix) + Shown(ellipsis) + padding
  {
    hide *;
    ResultShowsItsParts(prefix, prefixWidth, ellipsis, ellipsisWidth, maxWidth, pad);
  }

  /** The cut text is as wide as the pieces kept, the ellipsis and the padding: never above `maxWidth`, and exactly that
      with padding. */
  lemma CutTextFits(text: Str, maxWidth: nat, ellipsis: Str, pad: bool, graphemes: S.Segmenter, m: nat, result: Str)
    requires S.IsSegmenter(graphemes) && AsciiIsPlain(graphemes) && VisibleWidth(ellipsis, graphemes) <= maxWidth
    requires var ps, ew := Pieces(text, 0, graphemes), VisibleWidth(ellipsis, graphemes);
             && IsLongest(ps, maxWidth - ew, m)
             && StayApart(ps, m, ellipsis, Padding(pad, maxWidth, Width(ps, m) + ew), graphemes)
             && result == FinalizeTruncatedResult(TextOf(ps, m), Width(ps, m), ellipsis, ew, maxWidth, pad)
    ensures VisibleWidth(result, graphemes) <= maxWidth
    ensures pad ==> VisibleWidth(result, graphemes) == maxWidth
  {
    hide *;
    var ps, ew := Pieces(text, 0, graphemes), VisibleWidth(ellipsis, graphemes);
    var target := maxWidth - ew;
    LongestBounds(ps, target, m);
    var w := Width(ps, m);
    CutAddsUp(text, ps, w, ew, maxWidth, ellipsis, pad, graphemes, m, result);
    var total := VisibleWidth(result, graphemes);
    PaddedWidth(w, ew, maxWidth, pad, total);
  }

  lemma PaddedWidth(w: nat, ew: nat, maxWidth: nat, pad: bool, total: nat)
    requires w + ew <= maxWidth && total == w + ew + |Padding(pad, maxWidth, w + ew)|
    ensures total <= maxWidth && (pad ==> total == maxWidth)
  {
    PaddingIsSpaces(pad, maxWidth, w + ew);
  }

  lemma CutAddsUp(text: Str, ps: seq<Piece>, w: nat, ew: nat, maxWidth: nat, ellipsis: Str, pad: bool, graphemes: S.Segmenter,
                  m: nat, result: Str)
    requires S.IsSegmenter(graphemes) && AsciiIsPlain(graphemes) && ps == Pieces(text, 0, graphemes) && m <= |ps|
    requires w == Width(ps, m) && ew == VisibleWidth(ellipsis, graphemes)
    requires StayApart(ps, m, ellipsis, Padding(pad, maxWidth, w + ew), graphemes)
    requires result == FinalizeTruncatedResult(TextOf(ps, m), w, ellipsis, ew, maxWidth, pad)
    ensures VisibleWidth(result, graphemes) == w + ew + |Padding(pad, maxWidth, w + ew)|
  {
    hide *;
    var padding := Padding(pad, maxWidth, w + ew);
    ApartBounds(ps, m, ellipsis, padding, graphemes);
    PaddingIsSpaces(pad, maxWidth, w + ew);
    ResultShows(TextOf(ps, m), w, ellipsis, ew, maxWidth, pad, result, padding);
    WidthsAddUp(result, text, ps, m, ellipsis, padding, graphemes);
  }

  lemma LongestBounds(ps: seq<Piece>, target: nat, m: nat)
    requires IsLongest(ps, target, m)
    ensures m <= |ps| && Width(ps, m) <= target
  {}

  lemma ApartBounds(ps: seq<Piece>, k: nat, ellipsis: Str, padding: Str, graphemes: S.Segmenter)
    requires StayApart(ps, k, ellipsis, padding, graphemes)
    ensures k <= |ps| && SafeEllipsis(TextOf(ps, k), ellipsis)
  {}

  lemma NoEllipsis(graphemes: S.Segmenter)
    ensures Shown([]) == [] && VisibleWidth([], graphemes) == 0
  {}

  lemma WithNothing(x: Str, y: Str)
    ensures x + [] + y == x + y == [] + x + y
  {}

  lemma PaddedShows(text: Str, padding: Str)
    requires IsSpaces(padding)
    ensures Shown(text + padding) == Shown(text) + padding
  {
    hide Stripped, ExpandTabs, IsSpaces, EndsWhole, EndAlike;
    ThenClosing(ExpandTabs(text), false, padding);
    assert Closing(false, padding) == padding;
    ExpandedTogether(text, padding);
    SpacesShown(padding);
  }

  /** A text that fits is only padded. */
  lemma UncutTextFits(text: Str, maxWidth: nat, pad: bool, graphemes: S.Segmenter)
    requires S.IsSegmenter(graphemes) && AsciiIsPlain(graphemes)
    requires var ps := Pieces(text, 0, graphemes);
             && Width(ps, |ps|) <= maxWidth
             && StayApart(ps, |ps|, [], Padding(pad, maxWidth, Width(ps, |ps|)), graphemes)
    ensures var result := text + Padding(pad, maxWidth, Width(Pieces(text, 0, graphemes), |Pieces(text, 0, graphemes)|));
            VisibleWidth(result, graphemes) <= maxWidth && (pad ==> VisibleWidth(result, graphemes) == maxWidth)
  {
    var ps := Pieces(text, 0, graphemes);
    var padding := Padding(pad, maxWidth, Width(ps, |ps|));
    hide Pieces, Width, TextOf, VisibleWidth, AsciiIsPlain, S.IsSegmenter, Padding, IsSpaces, Shown, StayApart;
    PiecesSpell(text, 0, graphemes);
    assert text[0..] == text;
    PaddingIsSpaces(pad, maxWidth, Width(ps, |ps|));
    PaddedShows(text, padding);
    NoEllipsis(graphemes);
    WithNothing(Shown(text), padding);
    WidthsAddUp(text + padding, text, ps, |ps|, [], padding, graphemes);
  }

  /** Where the ellipsis leaves no room, what is left of it is cut to fit. */
  lemma ClippedEllipsisFits(maxWidth: nat, ellipsis: Str, pad: bool, graphemes: S.Segmenter, m: nat)
    requires S.IsSegmenter(graphemes) && AsciiIsPlain(graphemes)
    requires var es := Pieces(ellipsis, 0, graphemes);
             IsLongest(es, maxWidth, m) && StayApart(es, m, [], Padding(pad, maxWidth, Width(es, m)), graphemes)
    ensures var es := Pieces(ellipsis, 0, graphemes);
            var result := FinalizeTruncatedResult([], 0, TextOf(es, m), Width(es, m), maxWidth, pad);
            VisibleWidth(result, graphemes) <= maxWidth && (pad ==> VisibleWidth(result, graphemes) == maxWidth)
  {
    var es := Pieces(ellipsis, 0, graphemes);
    var kept, padding := TextOf(es, m), Padding(pad, maxWidth, Width(es, m));
    var result := FinalizeTruncatedResult([], 0, kept, Width(es, m), maxWidth, pad);
    hide *;
    LongestBounds(es, maxWidth, m);
    PaddingIsSpaces(pad, maxWidth, Width(es, m));
    NothingIsOpen(kept);
    ResultShows([], 0, kept, Width(es, m), maxWidth, pad, result, padding);
    NoEllipsis(graphemes);
    WithNothing(Shown(kept), padding);
    WidthsAddUp(result, ellipsis, es, m, [], padding, graphemes);
  }

  lemma NothingIsOpen(ellipsis: Str)
    ensures SafeEllipsis([], ellipsis)
  {}

  /** In whichever way the text is cut, what is put together stays apart. */
  ghost predicate ResultStaysApart(text: Str, maxWidth: nat, ellipsis: Str, pad: bool, graphemes: S.Segmenter) {
    var ew, tw := VisibleWidth(ellipsis, graphemes), VisibleWidth(text, graphemes);
    var ps, es := Pieces(text, 0, graphemes), Pieces(ellipsis, 0, graphemes);
    if ew < maxWidth then
      if Width(ps, |ps|) <= maxWidth then StayApart(ps, |ps|, [], Padding(pad, maxWidth, Width(ps, |ps|)), graphemes)
      else forall m | IsLongest(ps, maxWidth - ew, m) ::
             StayApart(ps, m, ellipsis, Padding(pad, maxWidth, Width(ps, m) + ew), graphemes)
    else if tw <= maxWidth then
      graphemes(Shown(text) + Padding(pad, maxWidth, tw)) == graphemes(Shown(text)) + graphemes(Padding(pad, maxWidth, tw))
    else forall m | IsLongest(es, maxWidth, m) :: StayApart(es, m, [], Padding(pad, maxWidth, Width(es, m)), graphemes)
  }

  lemma TruncatedFits(result: Str, text: Str, maxWidth: nat, ellipsis: Str, pad: bool, graphemes: S.Segmenter)
    requires S.IsSegmenter(graphemes) && AsciiIsPlain(graphemes) && text != [] && VisibleWidth(ellipsis, graphemes) < maxWidth
    requires IsTruncation(result, text, maxWidth, ellipsis, pad, graphemes)
    requires ResultStaysApart(text, maxWidth, ellipsis, pad, graphemes)
    ensures VisibleWidth(result, graphemes) <= maxWidth
    ensures pad ==> VisibleWidth(result, graphemes) == maxWidth
  {
    var ps, ew := Pieces(text, 0, graphemes), VisibleWidth(ellipsis, graphemes);
    hide *;
    if Width(ps, |ps|) <= maxWidth {
      UncutStaysApart(result, text, maxWidth, ellipsis, pad, graphemes);
      UncutTextFits(text, maxWidth, pad, graphemes);
    } else {
      var m := CutAt(result, text, maxWidth, ellipsis, pad, graphemes);
      CutStaysApart(text, maxWidth, ellipsis, pad, graphemes, m);
      CutTextFits(text, maxWidth, ellipsis, pad, graphemes, m, result);
    }
  }

  lemma UncutStaysApart(result: Str, text: Str, maxWidth: nat, ellipsis: Str, pad: bool, graphemes: S.Segmenter)
    requires text != [] && VisibleWidth(ellipsis, graphemes) < maxWidth
    requires Width(Pieces(text, 0, graphemes), |Pieces(text, 0, graphemes)|) <= maxWidth
    requires IsTruncation(result, text, maxWidth, ellipsis, pad, graphemes)
    requires ResultStaysApart(text, maxWidth, ellipsis, pad, graphemes)
    ensures var ps := Pieces(text, 0, graphemes);
            && result == text + Padding(pad, maxWidth, Width(ps, |ps|))
            && StayApart(ps, |ps|, [], Padding(pad, maxWidth, Width(ps, |ps|)), graphemes)
  {
    hide Pieces, Width, TextOf, VisibleWidth, Padding, FinalizeTruncatedResult, IsLongest, StayApart, Shown;
  }

  lemma CutAt(result: Str, text: Str, maxWidth: nat, ellipsis: Str, pad: bool, graphemes: S.Segmenter) returns (m: nat)
    requires text != [] && VisibleWidth(ellipsis, graphemes) < maxWidth
    requires Width(Pieces(text, 0, graphemes), |Pieces(text, 0, graphemes)|) > maxWidth
    requires IsTruncation(result, text, maxWidth, ellipsis, pad, graphemes)
    ensures var ps, ew := Pieces(text, 0, graphemes), VisibleWidth(ellipsis, graphemes);
            && IsLongest(ps, maxWidth - ew, m) && m <= |ps|
            && result == FinalizeTruncatedResult(TextOf(ps, m), Width(ps, m), ellipsis, ew, maxWidth, pad)
  {
    hide Pieces, Width, TextOf, VisibleWidth, Padding, FinalizeTruncatedResult;
    var ps, ew := Pieces(text, 0, graphemes), VisibleWidth(ellipsis, graphemes);
    m :| IsLongest(ps, maxWidth - ew, m) &&
         result == FinalizeTruncatedResult(TextOf(ps, m), Width(ps, m), ellipsis, ew, maxWidth, pad);
  }

  lemma CutStaysApart(text: Str, maxWidth: nat, ellipsis: Str, pad: bool, graphemes: S.Segmenter, m: nat)
    requires VisibleWidth(ellipsis, graphemes) < maxWidth
    requires Width(Pieces(text, 0, graphemes), |Pieces(text, 0, graphemes)|) > maxWidth
    requires ResultStaysApart(text, maxWidth, ellipsis, pad, graphemes)
    requires IsLongest(Pieces(text, 0, graphemes), maxWidth - VisibleWidth(ellipsis, graphemes), m)
    ensures var ps, ew := Pieces(text, 0, graphemes), VisibleWidth(ellipsis, graphemes);
            m <= |ps| && StayApart(ps, m, ellipsis, Padding(pad, maxWidth, Width(ps, m) + ew), graphemes)
  {
    hide Pieces, Width, TextOf, VisibleWidth, Padding, StayApart, Shown;
  }

  lemma ClippedFits(result: Str, text: Str, maxWidth: nat, ellipsis: Str, pad: bool, graphemes: S.Segmenter)
    requires S.IsSegmenter(graphemes) && AsciiIsPlain(graphemes)
    requires VisibleWidth(ellipsis, graphemes) >= maxWidth && VisibleWidth(text, graphemes) > maxWidth
    requires IsClippedEllipsis(result, maxWidth, ellipsis, pad, graphemes)
    requires ResultStaysApart(text, maxWidth, ellipsis, pad, graphemes)
    ensures VisibleWidth(result, graphemes) <= maxWidth
    ensures pad ==> VisibleWidth(result, graphemes) == maxWidth
  {
    var es := Pieces(ellipsis, 0, graphemes);
    hide Pieces, Width, TextOf, VisibleWidth, AsciiIsPlain, S.IsSegmenter, Padding, FinalizeTruncatedResult, IsLongest,
         StayApart, Shown;
    var m: nat :| IsLongest(es, maxWidth, m) &&
      result == (if Width(es, m) == 0 then Padding(pad, maxWidth, 0)
                 else FinalizeTruncatedResult([], 0, TextOf(es, m), Width(es, m), maxWidth, pad));
    if Width(es, m) == 0 {
      PaddingFits(maxWidth, pad, graphemes);
    } else {
      ClippedEllipsisFits(maxWidth, ellipsis, pad, graphemes, m);
    }
  }

  /**
   * No result of truncation is wider than `maxWidth`, and with padding every result is exactly that wide, whatever codes
   * and tabs the text and the ellipsis hold.
   */
  lemma TruncationFits(result: Str, text: Str, maxWidth: nat, ellipsis: Str, pad: bool, graphemes: S.Segmenter)
    requires S.IsSegmenter(graphemes) && AsciiIsPlain(graphemes)
    requires IsTruncation(result, text, maxWidth, ellipsis, pad, graphemes)
    requires text != [] ==> ResultStaysApart(text, maxWidth, ellipsis, pad, graphemes)
    ensures VisibleWidth(result, graphemes) <= maxWidth
    ensures pad ==> VisibleWidth(result, graphemes) == maxWidth
  {
    hide VisibleWidth, AsciiIsPlain, S.IsSegmenter, Padding, IsTruncated, IsClippedEllipsis, ResultStaysApart;
    if maxWidth == 0 {
      NoEllipsis(graphemes);
    } else if text == [] {
      PaddingFits(maxWidth, pad, graphemes);
    } else if VisibleWidth(ellipsis, graphemes) < maxWidth {
      TruncatedFits(result, text, maxWidth, ellipsis, pad, graphemes);
    } else if VisibleWidth(text, graphemes) <= maxWidth {
      SeamOfPadding(text, maxWidth, ellipsis, pad, graphemes);
      PaddedTextFits(text, maxWidth, pad, graphemes);
    } else {
      ClippedFits(result, text, maxWidth, ellipsis, pad, graphemes);
    }
  }

  lemma SeamOfPadding(text: Str, maxWidth: nat, ellipsis: Str, pad: bool, graphemes: S.Segmenter)
    requires VisibleWidth(ellipsis, graphemes) >= maxWidth >= VisibleWidth(text, graphemes)
    requires ResultStaysApart(text, maxWidth, ellipsis, pad, graphemes)
    ensures var padding := Padding(pad, maxWidth, VisibleWidth(text, graphemes));
            graphemes(Shown(text) + padding) == graphemes(Shown(text)) + graphemes(padding)
  {
    hide VisibleWidth, Padding, Shown;
  }

  lemma PaddingFits(maxWidth: nat, pad: bool, graphemes: S.Segmenter)
    requires AsciiIsPlain(graphemes)
    ensures VisibleWidth(Padding(pad, maxWidth, 0), graphemes) == if pad then maxWidth else 0
  {
    var padding := Padding(pad, maxWidth, 0);
    assert IsPrintableAscii(padding) by {
      forall i | 0 <= i < |padding|
        ensures padding[i] == SPACE
      {
        assert padding[i] in padding;
      }
    }
  }

  lemma PaddedTextFits(text: Str, maxWidth: nat, pad: bool, graphemes: S.Segmenter)
    requires AsciiIsPlain(graphemes) && VisibleWidth(text, graphemes) <= maxWidth
    requires var padding := Padding(pad, maxWidth, VisibleWidth(text, graphemes));
             graphemes(Shown(text) + padding) == graphemes(Shown(text)) + graphemes(padding)
    ensures var result := text + Padding(pad, maxWidth, VisibleWidth(text, graphemes));
            VisibleWidth(result, graphemes) <= maxWidth && (pad ==> VisibleWidth(result, graphemes) == maxWidth)
  {
    var tw := VisibleWidth(text, graphemes);
    var padding := Padding(pad, maxWidth, tw);
    hide VisibleWidth, AsciiIsPlain, Shown, Padding, IsSpaces, TotalWidth;
    PaddingIsSpaces(pad, maxWidth, tw);
    PaddedShows(text, padding);
    ShownWidth(text, graphemes);
    ShownWidth(text + padding, graphemes);
    SpacesAreWide(padding, graphemes);
    WidthConcat(graphemes(Shown(text)), graphemes(padding));
  }

  // ------------------------------------------------------------------ where it goes wrong

  /** A control character counts for no column, the characters behind it for one each. */
  predicate IsControlThenOnes(gs: seq<S.Grapheme>, c: Unit, t: Str) {
    && |gs| == 1 + |t| && gs[0] == S.Grapheme([c], 0)
    && forall i | 0 <= i < |t| :: gs[1 + i] == S.Grapheme([t[i]], 1)
  }

  lemma {:induction false} OnesBehind(gs: seq<S.Grapheme>, c: Unit, t: Str, k: nat)
    requires IsControlThenOnes(gs, c, t) && 0 < k <= |gs|
    ensures Width(Glyphs(gs), k) == k - 1 && TextOf(Glyphs(gs), k) == ([c] + t)[..k] && TotalWidth(gs[..k]) == k - 1
    decreases k
  {
    hide Glyphs;
    var ps, s := Glyphs(gs), [c] + t;
    assert ps[k - 1] == Glyph(gs[k - 1].text, gs[k - 1].width);
    assert gs[..k][..k - 1] == gs[..k - 1];
    if k == 1 {
      assert Width(ps, 0) == 0 && TextOf(ps, 0) == [] && TotalWidth(gs[..0]) == 0;
      assert s[..1] == [c];
    } else {
      OnesBehind(gs, c, t, k - 1);
      assert gs[1 + (k - 2)] == S.Grapheme([t[k - 2]], 1);
      assert s[..k] == s[..k - 1] + [t[k - 2]];
    }
  }

  lemma NoEscape(t: Str, c: Unit)
    requires IsPrintableAscii(t) && c != TAB
    ensures ESC !in t && BEL !in t && TAB !in t && TAB !in [c] + t
  {}

  /** An operating system command that nothing ends is plain text. */
  lemma OpenIsPlain(t: Str, graphemes: S.Segmenter)
    requires IsPrintableAscii(t) && t != [] && t[0] == RIGHT_BRACKET
    ensures Pieces([ESC] + t, 0, graphemes) == Glyphs(graphemes([ESC] + t))
    ensures ControlStringEnd([ESC] + t, 2, true) == None
    ensures forall j | 0 <= j < |t| + 1 :: AnsiEndAt([ESC] + t, j) == None
  {
    hide Glyphs;
    var text := [ESC] + t;
    OpenStays(text, 2);
    NoEscape(t, ESC);
    forall j | 0 <= j < |text|
      ensures !EndsRun(text, j) && AnsiEndAt(text, j) == None
    {
      assert j > 0 ==> text[j] == t[j - 1] && t[j - 1] in t;
      assert text[1] == t[0];
    }
    hide AnsiEndAt;
    assert text[0..|text|] == text && Pieces(text, |text|, graphemes) == [];
    PiecesOfRun(text, 0, graphemes);
    assert Glyphs(graphemes(text)) + [] == Glyphs(graphemes(text));
  }

  lemma {:induction false} OpenStays(text: Str, j: nat)
    requires 0 < j && forall k | 0 < k < |text| :: text[k] != ESC && text[k] != BEL
    ensures ControlStringEnd(text, j, true) == None
    decreases |text| - j
  {
    if j < |text| { OpenStays(text, j + 1); }
  }

  /**
   * An operating system command left open swallows the text up to a BEL in the ellipsis: only the rest of the ellipsis is
   * shown, and the padding does not make up for it.
   */
  lemma OpenStringSwallows(t: Str, d: Str, maxWidth: nat, pad: bool, graphemes: S.Segmenter, result: Str)
    requires IsPrintableAscii(t) && t != [] && t[0] == RIGHT_BRACKET && IsPrintableAscii(d) && |d| < maxWidth < |t|
    requires AsciiIsPlain(graphemes)
    requires IsControlThenOnes(graphemes([ESC] + t), ESC, t) && IsControlThenOnes(graphemes([BEL] + d), BEL, d)
    requires IsTruncation(result, [ESC] + t, maxWidth, [BEL] + d, pad, graphemes)
    ensures VisibleWidth(result, graphemes) == |d| < maxWidth
    ensures !SafeEllipsis(([ESC] + t)[..1 + maxWidth - |d|], [BEL] + d)
  {
    hide *;
    var text, ellipsis, target := [ESC] + t, [BEL] + d, maxWidth - |d|;
    var gs := graphemes(text);
    BellShows(d, graphemes);
    OpenIsPlain(t, graphemes);
    WideAndPlain(gs, t);
    var n := CutAt(result, text, maxWidth, ellipsis, pad, graphemes);
    LongestOfOnes(gs, t, target);
    LongestIsUnique(Glyphs(gs), target, target + 1, n);
    OnesBehind(gs, ESC, t, target + 1);
    ResultIs(text[..target + 1], target, ellipsis, |d|, maxWidth, pad);
    KeptFront(t, target);
    NoPadding(pad, maxWidth);
    SwallowedShows(t[..target], d, result);
    ShownWidth(result, graphemes);
    OnesOf(d, graphemes);
    OnesWidth(graphemes(d), d);
  }

  lemma NoPadding(pad: bool, maxWidth: nat)
    ensures Padding(pad, maxWidth, maxWidth) == []
  {}

  lemma KeptFront(t: Str, target: nat)
    requires 0 < target <= |t| && t[0] == RIGHT_BRACKET
    ensures ([ESC] + t)[..target + 1] == [ESC] + t[..target] && t[..target][0] == RIGHT_BRACKET
    ensures IsPrintableAscii(t) ==> IsPrintableAscii(t[..target])
  {}

  lemma WideAndPlain(gs: seq<S.Grapheme>, t: Str)
    requires IsControlThenOnes(gs, ESC, t)
    ensures Width(Glyphs(gs), |gs|) == |t|
  {
    OnesBehind(gs, ESC, t, |gs|);
  }

  lemma OnesOf(d: Str, graphemes: S.Segmenter)
    requires AsciiIsPlain(graphemes) && IsPrintableAscii(d)
    ensures IsOnes(graphemes(d), d)
  {}

  lemma LongestOfOnes(gs: seq<S.Grapheme>, t: Str, target: nat)
    requires IsControlThenOnes(gs, ESC, t) && target < |t|
    ensures IsLongest(Glyphs(gs), target, target + 1)
  {
    hide Width, TextOf, TotalWidth;
    forall k: nat | 0 < k <= |gs|
      ensures Width(Glyphs(gs), k) == k - 1
    {
      OnesBehind(gs, ESC, t, k);
    }
  }

  lemma BellShows(d: Str, graphemes: S.Segmenter)
    requires AsciiIsPlain(graphemes) && IsPrintableAscii(d) && IsControlThenOnes(graphemes([BEL] + d), BEL, d)
    ensures VisibleWidth([BEL] + d, graphemes) == |d|
  {
    hide AsciiIsPlain, VisibleWidth, Stripped, ExpandTabs;
    var s, gs := [BEL] + d, graphemes([BEL] + d);
    NoEscape(d, BEL);
    ShownWidth(s, graphemes);
    NothingExpanded(s);
    NothingStripped(s, 0);
    assert s[0..] == s && gs[..|gs|] == gs;
    OnesBehind(gs, BEL, d, |gs|);
  }

  lemma SwallowedShows(t: Str, d: Str, result: Str)
    requires IsPrintableAscii(t) && t != [] && t[0] == RIGHT_BRACKET && IsPrintableAscii(d)
    requires result == [ESC] + t + Behind([ESC] + t, [BEL] + d, [])
    ensures Shown(result) == d && !SafeEllipsis([ESC] + t, [BEL] + d)
  {
    hide Stripped, ExpandTabs, AnsiEndAt, Closing, EndsOpen;
    var p, e, rest := [ESC] + t, [BEL] + d, d + Closing(true, []);
    NoEscape(t, ESC);
    NoEscape(d, BEL);
    NothingExpanded(p);
    NothingExpanded(e);
    var tail := SGR_RESET + ([BEL] + rest);
    ResultHolds(t, d, result);
    NothingExpanded(result);
    SwallowedCode(t, rest);
    StrippedOfCode(result, |p| + 5);
    assert result[|p| + 5..] == rest;
    ThenClosing(d, true, []);
    NothingStripped(d, 0);
    assert d[0..] == d;
    OpenIsEnded(t, d);
  }

  lemma ResultHolds(t: Str, d: Str, result: Str)
    requires IsPrintableAscii(t) && IsPrintableAscii(d)
    requires result == [ESC] + t + Behind([ESC] + t, [BEL] + d, [])
    ensures result == ([ESC] + t) + (SGR_RESET + ([BEL] + (d + Closing(true, [])))) && TAB !in result
  {
    var p, end := [ESC] + t, Closing(true, []);
    NoEscape(t, ESC);
    NoEscape(d, BEL);
    ResetTabless();
    assert p[0] == ESC;
    assert [BEL] + d + end == [BEL] + (d + end);
    assert result == p + (SGR_RESET + ([BEL] + d + end));
  }

  lemma SwallowedCode(t: Str, rest: Str)
    requires IsPrintableAscii(t) && t != [] && t[0] == RIGHT_BRACKET
    ensures AnsiEndAt([ESC] + t + (SGR_RESET + ([BEL] + rest)), 0) == Some(|t| + 6)
  {
    hide ControlStringEnd, CsiEnd, Stripped, Seals;
    var p, tail := [ESC] + t, SGR_RESET + ([BEL] + rest);
    BellEnds(rest);
    ResetGone([BEL] + rest);
    OpenIsPlain(t, _ => []);
    StringLeftOpen(p, tail, 2, true);
    assert (p + tail)[0] == ESC && (p + tail)[1] == RIGHT_BRACKET;
  }

  lemma OpenIsEnded(t: Str, d: Str)
    requires IsPrintableAscii(t) && t != [] && t[0] == RIGHT_BRACKET
    ensures EndsOpen([ESC] + t, 0, [BEL] + d)
  {
    hide ControlStringEnd, AnsiEndAt;
    OpenIsPlain(t, _ => []);
    BellEnds(d);
    assert ([ESC] + t)[1] == RIGHT_BRACKET;
  }

  lemma ResetTabless()
    ensures TAB !in SGR_RESET && TAB !in Closing(true, [])
  {}

  lemma BellEnds(rest: Str)
    ensures ControlStringEnd([BEL] + rest, 0, true) == Some(1)
  {}

  lemma TabbedCsi(f: Unit)
    requires IsFinal(f)
    ensures var text: Str := [ESC, LEFT_BRACKET, TAB, f];
            && TabMakesCode(text) && !TabsStayOut(text)
            && (forall j: nat :: AnsiEndAt(text, j) == None)
            && RunEnd(text, 0) == 2 && RunEnd(text, 3) == 4
  {
    var text: Str := [ESC, LEFT_BRACKET, TAB, f];
    assert text[2..] == [TAB, f] && [TAB, f][1..] == [f];
    assert CsiEnd(text, 2, false) == None;
    assert TabbedCsiEnd([f], true) == Some(1);
    assert RunEnd(text, 2) == 2 && RunEnd(text, 1) == 2;
  }

  lemma TabbedExpands(f: Unit)
    requires IsFinal(f)
    ensures ExpandTabs([ESC, LEFT_BRACKET, TAB, f]) == [ESC, LEFT_BRACKET, SPACE, SPACE, SPACE, f]
  {
    hide ExpandTabs;
    var front: Str, back: Str := [ESC, LEFT_BRACKET], [f];
    NothingExpanded(front);
    NothingExpanded(back);
    ExpandedHead([TAB] + back);
    assert ([TAB] + back)[1..] == back;
    ExpandedTogether(front, [TAB] + back);
    assert front + ([TAB] + back) == [ESC, LEFT_BRACKET, TAB, f];
  }

  lemma TabbedCsiIsWide(f: Unit, graphemes: S.Segmenter)
    requires IsFinal(f) && AsciiIsPlain(graphemes)
    requires graphemes([ESC, LEFT_BRACKET]) == [S.Grapheme([ESC], 0), S.Grapheme([LEFT_BRACKET], 1)]
    ensures var ps := Pieces([ESC, LEFT_BRACKET, TAB, f], 0, graphemes); Width(ps, |ps|) == 5
  {
    hide AnsiEndAt, RunEnd, Glyphs, AsciiIsPlain, Width;
    var text: Str := [ESC, LEFT_BRACKET, TAB, f];
    TabbedCsi(f);
    PiecesOfRun(text, 0, graphemes);
    PiecesOfRun(text, 3, graphemes);
    assert text[0..2] == [ESC, LEFT_BRACKET] && text[3..4] == [f];
    OnesOf([f], graphemes);
    var ps := Pieces(text, 0, graphemes);
    var end: seq<Piece> := Pieces(text, 4, graphemes);
    assert end == [];
    assert ps == [Glyph([ESC], 0), Glyph([LEFT_BRACKET], 1), Glyph([TAB], 3), Glyph([f], 1)];
    FourWide(ps);
  }

  lemma FourWide(ps: seq<Piece>)
    requires |ps| == 4
    ensures Width(ps, 4) == ps[0].Width() + ps[1].Width() + ps[2].Width() + ps[3].Width()
  {
    assert Width(ps, 1) == Width(ps, 0) + ps[0].Width();
    assert Width(ps, 2) == Width(ps, 1) + ps[1].Width();
    assert Width(ps, 3) == Width(ps, 2) + ps[2].Width();
    assert Width(ps, 4) == Width(ps, 3) + ps[3].Width();
  }

  /** A tab between "ESC [" and a final byte counts for three columns, and makes all of it a code once it is expanded: with
      padding the result stays five columns short. */
  lemma TabSwallows(f: Unit, maxWidth: nat, ellipsis: Str, pad: bool, graphemes: S.Segmenter, result: Str)
    requires IsFinal(f) && AsciiIsPlain(graphemes) && VisibleWidth(ellipsis, graphemes) < maxWidth && 5 <= maxWidth
    requires graphemes([ESC, LEFT_BRACKET]) == [S.Grapheme([ESC], 0), S.Grapheme([LEFT_BRACKET], 1)]
    requires IsTruncation(result, [ESC, LEFT_BRACKET, TAB, f], maxWidth, ellipsis, pad, graphemes)
    ensures !TabsStayOut([ESC, LEFT_BRACKET, TAB, f])
    ensures VisibleWidth(result, graphemes) == if pad then maxWidth - 5 else 0
  {
    hide AnsiEndAt, Pieces, Width, VisibleWidth, AsciiIsPlain, TabsStayOut, ExpandTabs, Stripped, Padding, IsSpaces, TabMakesCode,
         TabbedCsiEnd, RunEnd;
    var text: Str, padding := [ESC, LEFT_BRACKET, TAB, f], Padding(pad, maxWidth, 5);
    TabbedCsi(f);
    TabbedCsiIsWide(f, graphemes);
    assert result == text + padding;
    PaddingIsSpaces(pad, maxWidth, 5);
    PaddedShows(text, padding);
    TabbedShowsNothing(f);
    assert [] + padding == padding;
    ShownWidth(result, graphemes);
    SpacesAreWide(padding, graphemes);
    PaddingLength(pad, maxWidth);
  }

  lemma PaddingLength(pad: bool, maxWidth: nat)
    requires 5 <= maxWidth
    ensures |Padding(pad, maxWidth, 5)| == if pad then maxWidth - 5 else 0
  {}

  lemma TabbedShowsNothing(f: Unit)
    requires IsFinal(f)
    ensures Shown([ESC, LEFT_BRACKET, TAB, f]) == []
  {
    hide ExpandTabs;
    TabbedExpands(f);
    var t: Str := [ESC, LEFT_BRACKET, SPACE, SPACE, SPACE, f];
    assert CsiEnd(t, 5, true) == Some(6);
    assert CsiEnd(t, 4, true) == CsiEnd(t, 3, true) == CsiEnd(t, 2, false) == Some(6);
    assert Stripped(t, 6) == [];
  }
}
