/** In which style the ellipsis and the padding of a cut text are shown (packages/tui/src/utils.ts:373-436). */
module TruncateStyle {
  import opened AnsiScanner
  import opened AnsiStyle
  import opened Strings
  import C = Composite
  import S = Segments
  import T = Truncate

  /** Without an escape character nothing is styled. */
  lemma {:induction false} PlainKeepsStyle(text: Str, i: nat, st: Style)
    requires i <= |text| && ESC !in text
    ensures ReadFrom(text, i, st) == st
    decreases |text| - i
  {
    if i < |text| {
      assert text[i] in text;
      PlainKeepsStyle(text, i + 1, st);
    }
  }

  /** The reset in front of the ellipsis, or behind it. */
  function ResetIf(needed: bool): C.Piece {
    C.Piece(if needed then T.SGR_RESET else [], 0)
  }

  /** A cut text in its parts: what is kept, the ellipsis and the padding, with resets between them. */
  function Parts(prefix: Str, ellipsis: Str, padding: Str): seq<C.Piece> {
    [C.Piece(prefix, 0), ResetIf(ESC in prefix), C.Piece(ellipsis, 0),
     ResetIf(ellipsis != [] && (ESC in prefix || ESC in ellipsis)), C.Piece(padding, 0)]
  }

  lemma ResultIsParts(prefix: Str, prefixWidth: nat, ellipsis: Str, ellipsisWidth: nat, maxWidth: nat, pad: bool)
    ensures C.TextOf(Parts(prefix, ellipsis, T.Padding(pad, maxWidth, prefixWidth + ellipsisWidth))) ==
            T.FinalizeTruncatedResult(prefix, prefixWidth, ellipsis, ellipsisWidth, maxWidth, pad)
  {
    hide C.TextOf, T.Padding;
    var padding := T.Padding(pad, maxWidth, prefixWidth + ellipsisWidth);
    PartsText(Parts(prefix, ellipsis, padding));
    assert ellipsis == [] ==> prefix + ResetIf(ESC in prefix).text + ellipsis + [] == prefix + ResetIf(ESC in prefix).text;
  }

  lemma PartsText(ps: seq<C.Piece>)
    requires |ps| == 5
    ensures C.TextOf(ps) == ps[0].text + ps[1].text + ps[2].text + ps[3].text + ps[4].text
  {
    hide C.TextOf;
    C.NoText(ps[..0]);
    C.NextFour(ps, 0);
    C.NextText(ps, 4);
    C.NothingFirst(ps[0].text);
    assert ps[..5] == ps;
  }

  lemma ResetApplies(needed: bool, st: Style)
    ensures ReadFrom(ResetIf(needed).text, 0, st) == if needed then Reset(st) else st
    ensures S.Styled(ResetIf(needed).text, 0, st) == []
  {
    hide ReadFrom, S.Styled, IsCode, Process;
    if needed {
      C.ZeroResets(st);
      var zero := CSI + [0x30] + [LETTER_M];
      assert T.SGR_RESET == zero && zero + [] == zero;
      ReadCode(zero, [], st);
      S.StyledCode(zero, [], st);
      ReadNothing(Reset(st));
      C.EmptyShows(Reset(st));
    } else {
      ReadNothing(st);
      C.EmptyShows(st);
    }
  }

  /** No attribute and no colour is on; a hyperlink may be. */
  predicate Unstyled(st: Style) {
    st == Reset(st)
  }

  /**
   * Where readers stand at the seams, the ellipsis is shown without the attributes and colours of the kept text, the padding
   * without any, and none is left behind.  A hyperlink that the cut left open is not closed: it goes on over the ellipsis.
   */
  lemma CutStyles(prefix: Str, prefixWidth: nat, ellipsis: Str, ellipsisWidth: nat, maxWidth: nat, pad: bool)
    requires C.StandsAtSeams(Parts(prefix, ellipsis, T.Padding(pad, maxWidth, prefixWidth + ellipsisWidth)))
    ensures var result := T.FinalizeTruncatedResult(prefix, prefixWidth, ellipsis, ellipsisWidth, maxWidth, pad);
            var padding := T.Padding(pad, maxWidth, prefixWidth + ellipsisWidth);
            var kept := ReadFrom(prefix, 0, BLANK);
            var last := ReadFrom(result, 0, BLANK);
            && S.Styled(result, 0, BLANK) ==
               S.Styled(prefix, 0, BLANK) + S.Styled(ellipsis, 0, Reset(kept)) + S.Styled(padding, 0, last)
            && last == Reset(ReadFrom(ellipsis, 0, Reset(kept)))
  {
    hide ReadFrom, S.Styled, C.TextOf, C.StandsAtSeams, T.Padding, T.FinalizeTruncatedResult;
    var padding := T.Padding(pad, maxWidth, prefixWidth + ellipsisWidth);
    var ps := Parts(prefix, ellipsis, padding);
    var kept := ReadFrom(prefix, 0, BLANK);
    ResultIsParts(prefix, prefixWidth, ellipsis, ellipsisWidth, maxWidth, pad);
    C.PiecesStayApart(ps, 5);
    assert ps[..5] == ps;
    assert C.StyleBefore(ps, 0) == BLANK && C.StyleBefore(ps, 1) == kept;
    ResetApplies(ESC in prefix, kept);
    if ESC !in prefix { PlainKeepsStyle(prefix, 0, BLANK); }
    assert C.StyleBefore(ps, 2) == Reset(kept);
    var shown := ReadFrom(ellipsis, 0, Reset(kept));
    assert C.StyleBefore(ps, 3) == shown;
    ResetApplies(ps[3].text != [], shown);
    if ESC !in ellipsis { PlainKeepsStyle(ellipsis, 0, Reset(kept)); }
    assert ps[3] == ResetIf(ps[3].text != []);
    assert C.StyleBefore(ps, 4) == Reset(shown);
    PlainKeepsStyle(padding, 0, Reset(shown)) by { PaddingIsPlain(pad, maxWidth, prefixWidth + ellipsisWidth); }
    assert C.StyleBefore(ps, 5) == Reset(shown);
    PartsShown(ps);
  }

  lemma PaddingIsPlain(pad: bool, maxWidth: nat, width: nat)
    ensures ESC !in T.Padding(pad, maxWidth, width)
  {}

  lemma PartsShown(ps: seq<C.Piece>)
    requires |ps| == 5 && forall k | k == 1 || k == 3 :: S.Styled(ps[k].text, 0, C.StyleBefore(ps, k)) == []
    ensures C.ShownApart(ps, 5) ==
            S.Styled(ps[0].text, 0, C.StyleBefore(ps, 0)) + S.Styled(ps[2].text, 0, C.StyleBefore(ps, 2))
            + S.Styled(ps[4].text, 0, C.StyleBefore(ps, 4))
  {
    hide S.Styled, C.StyleBefore;
    assert C.ShownApart(ps, 1) == S.Styled(ps[0].text, 0, C.StyleBefore(ps, 0));
    assert C.ShownApart(ps, 2) == C.ShownApart(ps, 1);
    assert C.ShownApart(ps, 3) == C.ShownApart(ps, 2) + S.Styled(ps[2].text, 0, C.StyleBefore(ps, 2));
    assert C.ShownApart(ps, 4) == C.ShownApart(ps, 3);
  }

  /** So a cut text leaves a blank style behind exactly when no hyperlink is left open. */
  lemma LeavesBlankExactlyWhen(prefix: Str, prefixWidth: nat, ellipsis: Str, ellipsisWidth: nat, maxWidth: nat, pad: bool)
    requires C.StandsAtSeams(Parts(prefix, ellipsis, T.Padding(pad, maxWidth, prefixWidth + ellipsisWidth)))
    ensures var result := T.FinalizeTruncatedResult(prefix, prefixWidth, ellipsis, ellipsisWidth, maxWidth, pad);
            ReadFrom(result, 0, BLANK) == BLANK <==> ReadFrom(ellipsis, 0, Reset(ReadFrom(prefix, 0, BLANK))).link == None
  {
    hide ReadFrom, C.StandsAtSeams, T.Padding, T.FinalizeTruncatedResult;
    CutStyles(prefix, prefixWidth, ellipsis, ellipsisWidth, maxWidth, pad);
  }
}
