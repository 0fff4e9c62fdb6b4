/** Width-bounded truncation (packages/tui/src/utils.ts:50-149 and 1046-1183). */
module Truncate {
  import opened AnsiScanner
  import opened Strings
  import opened Columns
  import S = Segments

  /** "ESC [ 0 m" */
  const SGR_RESET: Str := [0x1b, 0x5b, 0x30, 0x6d]

  // ------------------------------------------------------------------ a text as codes and graphemes

  /** An escape sequence, or a grapheme (a tab is one, three columns wide) with its width. */
  datatype Piece = Code(text: Str) | Glyph(text: Str, width: nat) {
    function Width(): nat { if Code? then 0 else width }
  }

  predicate EndsRun(text: Str, i: nat)
    requires i < |text|
  {
    text[i] == TAB || AnsiEndAt(text, i).Some?
  }

  /** The end of the run of plain text at `i`. */
  function RunEnd(text: Str, i: nat): (end: nat)
    requires i <= |text|
    ensures i <= end <= |text|
    ensures i < |text| && !EndsRun(text, i) ==> i < end
    ensures (forall j | i <= j < |text| :: !EndsRun(text, j)) ==> end == |text|
    decreases |text| - i
  {
    if i == |text| || EndsRun(text, i) then i else RunEnd(text, i + 1)
  }

  function Glyphs(gs: seq<S.Grapheme>): (ps: seq<Piece>)
    ensures |ps| == |gs|
    ensures forall i | 0 <= i < |gs| :: ps[i] == Glyph(gs[i].text, gs[i].width)
  {
    if gs == [] then [] else [Glyph(gs[0].text, gs[0].width)] + Glyphs(gs[1..])
  }

  function Pieces(text: Str, i: nat, graphemes: S.Segmenter): seq<Piece>
    decreases |text| - i
  {
    if i >= |text| then []
    else
      match AnsiEndAt(text, i)
      case Some(end) => [Code(text[i..end])] + Pieces(text, end, graphemes)
      case None =>
        if text[i] == TAB then [Glyph([TAB], TAB_WIDTH)] + Pieces(text, i + 1, graphemes)
        else
          var end := RunEnd(text, i);
          if end <= i then [] else Glyphs(graphemes(text[i..end])) + Pieces(text, end, graphemes)
  }

  /** The width of the first `k` pieces. */
  function Width(ps: seq<Piece>, k: nat): nat
    requires k <= |ps|
  {
    if k == 0 then 0 else Width(ps, k - 1) + ps[k - 1].Width()
  }

  /** The text of the first `k` pieces. */
  function TextOf(ps: seq<Piece>, k: nat): Str
    requires k <= |ps|
  {
    if k == 0 then [] else TextOf(ps, k - 1) + ps[k - 1].text
  }

  lemma {:induction false} WidthGrows(ps: seq<Piece>, i: nat, j: nat)
    requires i <= j <= |ps|
    ensures Width(ps, i) <= Width(ps, j)
    ensures (forall x | i <= x < j :: ps[x].Code?) ==> Width(ps, i) == Width(ps, j)
    decreases j
  {
    if i < j { WidthGrows(ps, i, j - 1); }
  }

  lemma TextOfSnoc(ps: seq<Piece>, x: Piece)
    ensures TextOf(ps + [x], |ps| + 1) == TextOf(ps, |ps|) + x.text
  {
    var more := ps + [x];
    assert more[|ps|] == x && TextOf(more, |ps| + 1) == TextOf(more, |ps|) + more[|ps|].text;
    hide TextOf;
    assert more[..|ps|] == ps[..|ps|];
    TextOfSame(more, ps, |ps|);
  }

  lemma {:induction false} TextOfConcat(a: seq<Piece>, b: seq<Piece>)
    ensures TextOf(a + b, |a| + |b|) == TextOf(a, |a|) + TextOf(b, |b|)
    decreases |b|
  {
    hide TextOf;
    TextOfNothing();
    if b == [] {
      assert a + b == a;
    } else {
      var front, x := b[..|b| - 1], b[|b| - 1];
      assert b == front + [x] && a + b == a + front + [x];
      TextOfSnoc(a + front, x);
      TextOfSnoc(front, x);
      TextOfConcat(a, front);
    }
  }

  lemma {:induction false} TextOfSame(ps: seq<Piece>, qs: seq<Piece>, k: nat)
    requires k <= |ps| && k <= |qs| && ps[..k] == qs[..k]
    ensures TextOf(ps, k) == TextOf(qs, k)
    decreases k
  {
    if k > 0 {
      assert ps[k - 1] == ps[..k][k - 1] == qs[..k][k - 1] == qs[k - 1];
      assert ps[..k - 1] == ps[..k][..k - 1] == qs[..k][..k - 1] == qs[..k - 1];
      TextOfSame(ps, qs, k - 1);
    }
  }

  lemma HeadText(head: seq<Piece>)
    requires |head| == 1
    ensures TextOf(head, 1) == head[0].text
  {
    assert TextOf(head, 1) == TextOf(head, 0) + head[0].text;
  }

  lemma {:induction false} GlyphsSpell(gs: seq<S.Grapheme>)
    ensures TextOf(Glyphs(gs), |gs|) == S.Joined(gs)
  {
    if gs != [] {
      var head, rest := [Glyph(gs[0].text, gs[0].width)], Glyphs(gs[1..]);
      GlyphsSpell(gs[1..]);
      HeadText(head);
      hide TextOf;
      assert Glyphs(gs) == head + rest;
      TextOfConcat(head, rest);
    }
  }

  /** The pieces of a text spell it out, nothing lost and nothing added. */
  lemma {:induction false} PiecesSpell(text: Str, i: nat, graphemes: S.Segmenter)
    requires S.IsSegmenter(graphemes) && i <= |text|
    ensures TextOf(Pieces(text, i, graphemes), |Pieces(text, i, graphemes)|) == text[i..]
    decreases |text| - i
  {
    hide AnsiEndAt, TextOf, Glyphs;
    TextOfNothing();
    if i < |text| {
      match AnsiEndAt(text, i) {
        case Some(end) => HeadSpells(text, i, end, [Code(text[i..end])], graphemes);
        case None =>
          if text[i] == TAB {
            assert text[i..i + 1] == [TAB];
            HeadSpells(text, i, i + 1, [Glyph([TAB], TAB_WIDTH)], graphemes);
          } else {
            var end := RunEnd(text, i);
            GlyphsSpell(graphemes(text[i..end]));
            HeadSpells(text, i, end, Glyphs(graphemes(text[i..end])), graphemes);
          }
      }
    }
  }

  lemma HeadSpells(text: Str, i: nat, end: nat, head: seq<Piece>, graphemes: S.Segmenter)
    requires S.IsSegmenter(graphemes) && i < end <= |text|
    requires TextOf(head, |head|) == text[i..end] || (|head| == 1 && head[0].text == text[i..end])
    ensures var ps := head + Pieces(text, end, graphemes); TextOf(ps, |ps|) == text[i..]
    decreases |text| - i, 0
  {
    hide Pieces;
    var rest := Pieces(text, end, graphemes);
    PiecesSpell(text, end, graphemes);
    TextOfConcat(head, rest);
    assert |head| == 1 ==> TextOf(head, 1) == TextOf(head, 0) + head[0].text;
    assert text[i..] == text[i..end] + text[end..];
  }

  lemma TextOfNothing()
    ensures TextOf([], 0) == []
  {}

  /** So whatever is kept from the front is a prefix of the text itself. */
  lemma {:induction false} KeptIsPrefix(ps: seq<Piece>, m: nat, k: nat)
    requires m <= k <= |ps|
    ensures TextOf(ps, m) <= TextOf(ps, k)
    decreases k
  {
    if m < k { KeptIsPrefix(ps, m, k - 1); }
  }

  // ------------------------------------------------------------------ the longest prefix

  /** The first `m` pieces end with the last grapheme of the longest run of graphemes that fits into `target` columns. */
  ghost predicate IsLongest(ps: seq<Piece>, target: nat, m: nat) {
    && m <= |ps| && (m > 0 ==> ps[m - 1].Glyph?) && Width(ps, m) <= target
    && forall j | m <= j < |ps| && ps[j].Glyph? :: Width(ps, j + 1) > target
  }

  lemma LongestIsUnique(ps: seq<Piece>, target: nat, m: nat, n: nat)
    requires IsLongest(ps, target, m) && IsLongest(ps, target, n)
    ensures m == n
  {
    hide Width;
    assert m > 0 ==> Width(ps, m - 1 + 1) <= target;
    assert n > 0 ==> Width(ps, n - 1 + 1) <= target;
  }

  /** No cut after a grapheme that fits into `target` columns goes further than the longest one. */
  lemma NoLongerCutFits(ps: seq<Piece>, target: nat, m: nat, n: nat)
    requires IsLongest(ps, target, m) && 0 < n <= |ps| && ps[n - 1].Glyph?
    ensures Width(ps, n) <= target <==> n <= m
  {
    hide Width;
    if n <= m {
      WidthGrows(ps, n, m);
    } else {
      assert Width(ps, n - 1 + 1) > target;
    }
  }

  // ------------------------------------------------------------------ the scan

  datatype Walk = Walk(result: Str, pendingAnsi: Str, visibleSoFar: nat, keptWidth: nat, keepContiguousPrefix: bool)

  const START := Walk([], [], 0, 0, true)

  function TakeCode(w: Walk, code: Str): Walk {
    w.(pendingAnsi := w.pendingAnsi + code)
  }

  function TakeGlyph(w: Walk, text: Str, width: nat, target: nat): Walk {
    var kept :=
      if w.keepContiguousPrefix && w.keptWidth + width <= target then
        w.(result := w.result + w.pendingAnsi + text, pendingAnsi := [], keptWidth := w.keptWidth + width)
      else w.(keepContiguousPrefix := false, pendingAnsi := []);
    kept.(visibleSoFar := w.visibleSoFar + width)
  }

  /** After `k` pieces the walk has kept the first `m`. */
  ghost predicate Holds(ps: seq<Piece>, k: nat, target: nat, w: Walk, m: nat) {
    && m <= k <= |ps| && (m > 0 ==> ps[m - 1].Glyph?)
    && w.result == TextOf(ps, m) && w.keptWidth == Width(ps, m) <= target
    && w.visibleSoFar == Width(ps, k)
    && (w.keepContiguousPrefix ==> (forall j | m <= j < k :: ps[j].Code?) && w.result + w.pendingAnsi == TextOf(ps, k))
    && (!w.keepContiguousPrefix ==> forall j | m <= j < |ps| && ps[j].Glyph? :: Width(ps, j + 1) > target)
  }

  lemma CodeStep(ps: seq<Piece>, k: nat, target: nat, w: Walk, m: nat)
    requires Holds(ps, k, target, w, m) && k < |ps| && ps[k].Code?
    ensures Holds(ps, k + 1, target, TakeCode(w, ps[k].text), m)
  {}

  lemma GlyphStep(ps: seq<Piece>, k: nat, target: nat, w: Walk, m: nat) returns (n: nat)
    requires Holds(ps, k, target, w, m) && k < |ps| && ps[k].Glyph?
    ensures Holds(ps, k + 1, target, TakeGlyph(w, ps[k].text, ps[k].width, target), n)
  {
    WidthGrows(ps, m, k);
    if w.keepContiguousPrefix && w.keptWidth + ps[k].width <= target {
      n := k + 1;
      var taken := TextOf(ps, k) + ps[k].text;
      assert taken + [] == taken;
    } else {
      n := m;
      forall j | m <= j < |ps| && ps[j].Glyph?
        ensures Width(ps, j + 1) > target
      {
        if w.keepContiguousPrefix {
          WidthGrows(ps, k + 1, j + 1);
        }
      }
    }
  }

  /** The walk ends with the longest prefix: at the end of the text, or once more is seen than fits. */
  lemma WalkEnds(ps: seq<Piece>, k: nat, target: nat, limit: nat, w: Walk, m: nat)
    requires Holds(ps, k, target, w, m) && target <= limit
    requires k == |ps| || w.visibleSoFar > limit
    ensures IsLongest(ps, target, m)
    ensures w.visibleSoFar > limit ==> Width(ps, |ps|) > limit
  {
    hide Width;
    WidthGrows(ps, m, k);
    WidthGrows(ps, k, |ps|);
  }

  /** The pieces from `k` on are the graphemes `gs`, then `rest`. */
  ghost predicate Coming(ps: seq<Piece>, k: nat, gs: seq<S.Grapheme>, rest: seq<Piece>) {
    k <= |ps| && ps[k..] == Glyphs(gs) + rest
  }

  lemma NextGlyph(ps: seq<Piece>, k: nat, gs: seq<S.Grapheme>, rest: seq<Piece>)
    requires Coming(ps, k, gs, rest) && gs != []
    ensures k < |ps| && ps[k] == Glyph(gs[0].text, gs[0].width) && Coming(ps, k + 1, gs[1..], rest)
  {
    assert ps[k..] == [Glyph(gs[0].text, gs[0].width)] + (Glyphs(gs[1..]) + rest);
  }

  /** The graphemes of one run, up to the one that overflows the limit. */
  method TakeRun(gs: seq<S.Grapheme>, target: nat, limit: nat, start: Walk, ghost ps: seq<Piece>, ghost k: nat, ghost m: nat,
                 ghost rest: seq<Piece>)
    returns (w: Walk, overflowed: bool, ghost k2: nat, ghost m2: nat)
    requires Holds(ps, k, target, start, m) && Coming(ps, k, gs, rest) && start.visibleSoFar <= limit
    ensures Holds(ps, k2, target, w, m2)
    ensures overflowed <==> w.visibleSoFar > limit
    ensures !overflowed ==> Coming(ps, k2, [], rest)
  {
    hide Holds, Coming;
    w, overflowed, k2, m2 := start, false, k, m;
    var j := 0;
    while j < |gs| && !overflowed
      invariant 0 <= j <= |gs|
      invariant Holds(ps, k2, target, w, m2)
      invariant !overflowed ==> Coming(ps, k2, gs[j..], rest)
      invariant overflowed <==> w.visibleSoFar > limit
      decreases |gs| - j, !overflowed
    {
      NextGlyph(ps, k2, gs[j..], rest);
      assert gs[j..][0] == gs[j] && gs[j..][1..] == gs[j + 1..];
      m2 := GlyphStep(ps, k2, target, w, m2);
      w := TakeGlyph(w, gs[j].text, gs[j].width, target);
      j, k2 := j + 1, k2 + 1;
      if w.visibleSoFar > limit {
        overflowed := true;
      }
    }
    assert !overflowed ==> gs[j..] == [];
  }

  method FindRunEnd(text: Str, i: nat, extractor: AnsiCodeExtractor) returns (end: nat)
    requires i <= |text| && extractor.Valid() && extractor.text == text
    modifies extractor
    ensures extractor.Valid() && end == RunEnd(text, i)
  {
    hide AnsiEndAt;
    end := i;
    while end < |text| && text[end] != TAB
      invariant extractor.Valid()
      invariant i <= end <= |text| && RunEnd(text, end) == RunEnd(text, i)
    {
      var code := extractor.EndAt(end);
      if code.Some? {
        break;
      }
      end := end + 1;
    }
  }

  /** The loop over a text with escape sequences and tabs. */
  method Scan(text: Str, target: nat, limit: nat, graphemes: S.Segmenter)
    returns (w: Walk, overflowed: bool, ghost k: nat, ghost m: nat)
    ensures Holds(Pieces(text, 0, graphemes), k, target, w, m)
    ensures if overflowed then w.visibleSoFar > limit
            else k == |Pieces(text, 0, graphemes)| && w.visibleSoFar <= limit
  {
    hide Holds, AnsiEndAt, TakeCode, TakeGlyph, Pieces, Glyphs, RunEnd;
    ghost var ps := Pieces(text, 0, graphemes);
    w, overflowed, k, m := START, false, 0, 0;
    var i := 0;
    var extractor := new AnsiCodeExtractor(text);
    StartHolds(ps, target);
    assert ps[0..] == ps;
    while i < |text| && !overflowed
      invariant fresh(extractor) && extractor.Valid() && extractor.text == text
      invariant i <= |text| && k <= |ps|
      invariant Holds(ps, k, target, w, m)
      invariant overflowed <==> w.visibleSoFar > limit
      invariant !overflowed ==> ps[k..] == Pieces(text, i, graphemes)
      decreases |text| - i, !overflowed
    {
      var code := extractor.EndAt(i);
      PiecesAt(text, i, graphemes);
      if code.Some? {
        NextPiece(ps, k, Code(text[i..code.value]), Pieces(text, code.value, graphemes));
        CodeStep(ps, k, target, w, m);
        SameSeen(w, text[i..code.value]);
        w := TakeCode(w, text[i..code.value]);
        i, k := code.value, k + 1;
      } else if text[i] == TAB {
        NextPiece(ps, k, Glyph([TAB], TAB_WIDTH), Pieces(text, i + 1, graphemes));
        m := GlyphStep(ps, k, target, w, m);
        w := TakeGlyph(w, [TAB], TAB_WIDTH, target);
        overflowed := w.visibleSoFar > limit;
        i, k := i + 1, k + 1;
      } else {
        var end := FindRunEnd(text, i, extractor);
        w, overflowed, k, m := TakeRun(graphemes(text[i..end]), target, limit, w, ps, k, m, Pieces(text, end, graphemes));
        RunTaken(ps, k, overflowed, target, w, m, Pieces(text, end, graphemes));
        i := end;
      }
    }
    if !overflowed {
      PiecesEnd(text, i, graphemes);
    }
  }

  lemma NextPiece(ps: seq<Piece>, k: nat, p: Piece, rest: seq<Piece>)
    requires k <= |ps| && ps[k..] == [p] + rest
    ensures k < |ps| && ps[k] == p && ps[k + 1..] == rest
  {
    assert ps[k..][0] == p && ps[k..][1..] == rest;
  }

  lemma StartHolds(ps: seq<Piece>, target: nat)
    ensures Holds(ps, 0, target, START, 0)
  {}

  lemma SameSeen(w: Walk, code: Str)
    ensures TakeCode(w, code).visibleSoFar == w.visibleSoFar
  {}

  lemma RunTaken(ps: seq<Piece>, k: nat, overflowed: bool, target: nat, w: Walk, m: nat, rest: seq<Piece>)
    requires Holds(ps, k, target, w, m) && (!overflowed ==> Coming(ps, k, [], rest))
    ensures k <= |ps| && (!overflowed ==> ps[k..] == rest)
  {}

  lemma PiecesAt(text: Str, i: nat, graphemes: S.Segmenter)
    requires i < |text|
    ensures match AnsiEndAt(text, i)
            case Some(end) => Pieces(text, i, graphemes) == [Code(text[i..end])] + Pieces(text, end, graphemes)
            case None =>
              if text[i] == TAB then Pieces(text, i, graphemes) == [Glyph([TAB], TAB_WIDTH)] + Pieces(text, i + 1, graphemes)
              else
                i < RunEnd(text, i) &&
                forall ps, k: nat | k <= |ps| && ps[k..] == Pieces(text, i, graphemes) ::
                  Coming(ps, k, graphemes(text[i..RunEnd(text, i)]), Pieces(text, RunEnd(text, i), graphemes))
  {
    hide AnsiEndAt, Glyphs;
  }

  lemma PiecesEnd(text: Str, i: nat, graphemes: S.Segmenter)
    requires i >= |text|
    ensures Pieces(text, i, graphemes) == []
  {}

  // ------------------------------------------------------------------ plain texts

  lemma {:induction false} NoCodes(text: Str, i: nat)
    requires i <= |text| && ESC !in text && TAB !in text
    ensures RunEnd(text, i) == |text|
    decreases |text| - i
  {
    hide AnsiEndAt;
    if i < |text| {
      NoCodeHere(text, i);
      NoCodes(text, i + 1);
    }
  }

  lemma NoCodeHere(text: Str, i: nat)
    requires i < |text| && ESC !in text
    ensures AnsiEndAt(text, i) == None
  {
    assert text[i] in text;
  }

  /** Without escape characters and tabs the pieces are the graphemes of the whole text. */
  lemma PlainPieces(text: Str, graphemes: S.Segmenter)
    requires text != [] && ESC !in text && TAB !in text
    ensures Pieces(text, 0, graphemes) == Glyphs(graphemes(text))
  {
    hide AnsiEndAt, Glyphs;
    NoCodes(text, 0);
    NoCodeHere(text, 0);
    assert text[0] in text;
    assert text[0..|text|] == text;
    assert Pieces(text, |text|, graphemes) == [];
    assert Glyphs(graphemes(text)) + [] == Glyphs(graphemes(text));
  }

  /** The pieces are the single characters of `text`, each one column wide. */
  ghost predicate AreOnes(ps: seq<Piece>, text: Str) {
    |ps| == |text| && forall i | 0 <= i < |ps| :: ps[i] == Glyph([text[i]], 1)
  }

  lemma AsciiPieces(text: Str, graphemes: S.Segmenter)
    requires text != [] && IsPrintableAscii(text) && AsciiIsPlain(graphemes)
    ensures AreOnes(Pieces(text, 0, graphemes), text)
  {
    hide Pieces;
    forall u | u in text
      ensures u != ESC && u != TAB
    {}
    PlainPieces(text, graphemes);
    assert IsOnes(graphemes(text), text);
  }

  lemma {:induction false} OnesAreWide(ps: seq<Piece>, text: Str, k: nat)
    requires AreOnes(ps, text) && k <= |text|
    ensures Width(ps, k) == k && TextOf(ps, k) == text[..k]
  {
    if k > 0 {
      OnesAreWide(ps, text, k - 1);
      assert text[..k] == text[..k - 1] + [text[k - 1]];
    }
  }

  /** On printable ASCII the longest prefix of `target` columns is the first `target` characters. */
  lemma AsciiLongest(text: Str, graphemes: S.Segmenter, target: nat)
    requires text != [] && IsPrintableAscii(text) && AsciiIsPlain(graphemes)
    ensures var ps, m := Pieces(text, 0, graphemes), if target < |text| then target else |text|;
            && IsLongest(ps, target, m) && Width(ps, m) == m && TextOf(ps, m) == text[..m]
            && Width(ps, |ps|) == |text| && |ps| == |text|
  {
    hide Pieces, Width, TextOf, AsciiIsPlain;
    var ps := Pieces(text, 0, graphemes);
    AsciiPieces(text, graphemes);
    forall k: nat | k <= |text|
      ensures Width(ps, k) == k && TextOf(ps, k) == text[..k]
    {
      OnesAreWide(ps, text, k);
    }
  }

  // ------------------------------------------------------------------ truncation

  function Spaces(n: nat): (s: Str)
    ensures |s| == n && forall u | u in s :: u == SPACE
  {
    seq(n, _ => SPACE)
  }

  function Padding(pad: bool, maxWidth: nat, width: nat): Str {
    if pad && width < maxWidth then Spaces(maxWidth - width) else []
  }

  function FinalizeTruncatedResult(prefix: Str, prefixWidth: nat, ellipsis: Str, ellipsisWidth: nat, maxWidth: nat, pad: bool): Str {
    var beforeEllipsis: Str := if ESC in prefix then SGR_RESET else [];
    var afterEllipsis: Str := if ESC in prefix || ESC in ellipsis then SGR_RESET else [];
    (if |ellipsis| > 0 then prefix + beforeEllipsis + ellipsis + afterEllipsis else prefix + beforeEllipsis) +
    Padding(pad, maxWidth, prefixWidth + ellipsisWidth)
  }

  /** `result` is what truncation of `text` must give when the ellipsis is narrower than `maxWidth`. */
  ghost predicate IsTruncated(result: Str, text: Str, maxWidth: nat, ellipsis: Str, ellipsisWidth: nat, pad: bool,
                              graphemes: S.Segmenter)
    requires ellipsisWidth < maxWidth
  {
    var ps := Pieces(text, 0, graphemes);
    if Width(ps, |ps|) <= maxWidth then result == text + Padding(pad, maxWidth, Width(ps, |ps|))
    else
      exists m: nat :: IsLongest(ps, maxWidth - ellipsisWidth, m) &&
        result == FinalizeTruncatedResult(TextOf(ps, m), Width(ps, m), ellipsis, ellipsisWidth, maxWidth, pad)
  }

  /** Truncation has one answer, so the fast path for ASCII and the general one agree wherever both apply. */
  lemma TruncationIsUnique(one: Str, two: Str, text: Str, maxWidth: nat, ellipsis: Str, ellipsisWidth: nat, pad: bool,
                           graphemes: S.Segmenter)
    requires ellipsisWidth < maxWidth
    requires IsTruncated(one, text, maxWidth, ellipsis, ellipsisWidth, pad, graphemes)
    requires IsTruncated(two, text, maxWidth, ellipsis, ellipsisWidth, pad, graphemes)
    ensures one == two
  {
    hide Pieces, Width, TextOf, FinalizeTruncatedResult;
    var ps := Pieces(text, 0, graphemes);
    if Width(ps, |ps|) > maxWidth {
      var m: nat :| IsLongest(ps, maxWidth - ellipsisWidth, m) &&
        one == FinalizeTruncatedResult(TextOf(ps, m), Width(ps, m), ellipsis, ellipsisWidth, maxWidth, pad);
      var n: nat :| IsLongest(ps, maxWidth - ellipsisWidth, n) &&
        two == FinalizeTruncatedResult(TextOf(ps, n), Width(ps, n), ellipsis, ellipsisWidth, maxWidth, pad);
      LongestIsUnique(ps, maxWidth - ellipsisWidth, m, n);
    }
  }

  method TruncateFragmentToWidth(text: Str, maxWidth: nat, graphemes: S.Segmenter)
    returns (result: Str, width: nat, ghost m: nat)
    requires AsciiIsPlain(graphemes)
    ensures IsLongest(Pieces(text, 0, graphemes), maxWidth, m) || maxWidth == 0
    ensures maxWidth == 0 ==> result == [] && width == 0
    ensures maxWidth > 0 ==> result == TextOf(Pieces(text, 0, graphemes), m) && width == Width(Pieces(text, 0, graphemes), m)
  {
    hide Pieces, Width, TextOf, IsLongest, AsciiIsPlain;
    m := 0;
    if maxWidth <= 0 || |text| == 0 {
      NothingIsLongest(graphemes, maxWidth);
      return [], 0, 0;
    }
    if IsPrintableAscii(text) {
      var clipped := if maxWidth < |text| then text[..maxWidth] else text;
      AsciiLongest(text, graphemes, maxWidth);
      return clipped, |clipped|, |clipped|;
    }
    ghost var ps := Pieces(text, 0, graphemes);
    var w, overflowed;
    ghost var k;
    w, overflowed, k, m := ScanAny(text, maxWidth, maxWidth, graphemes);
    WalkEnds(ps, k, maxWidth, maxWidth, w, m);
    KeptIs(ps, k, maxWidth, w, m);
    return w.result, w.keptWidth, m;
  }

  lemma NothingIsLongest(graphemes: S.Segmenter, target: nat)
    ensures IsLongest(Pieces([], 0, graphemes), target, 0)
    ensures TextOf(Pieces([], 0, graphemes), 0) == [] && Width(Pieces([], 0, graphemes), 0) == 0
  {}

  lemma KeptIs(ps: seq<Piece>, k: nat, target: nat, w: Walk, m: nat)
    requires Holds(ps, k, target, w, m)
    ensures m <= |ps| && w.result == TextOf(ps, m) && w.keptWidth == Width(ps, m)
    ensures k <= |ps| && w.visibleSoFar == Width(ps, k)
  {}

  /** Texts without escape sequences and tabs are segmented as a whole. */
  method ScanAny(text: Str, target: nat, limit: nat, graphemes: S.Segmenter)
    returns (w: Walk, overflowed: bool, ghost k: nat, ghost m: nat)
    requires text != []
    ensures Holds(Pieces(text, 0, graphemes), k, target, w, m)
    ensures if overflowed then w.visibleSoFar > limit
            else k == |Pieces(text, 0, graphemes)| && w.visibleSoFar <= limit
  {
    hide Holds, Pieces, Glyphs;
    if ESC in text || TAB in text {
      w, overflowed, k, m := Scan(text, target, limit, graphemes);
    } else {
      ghost var ps := Pieces(text, 0, graphemes);
      PlainPieces(text, graphemes);
      StartHolds(ps, target);
      assert ps[0..] == Glyphs(graphemes(text)) + [];
      w, overflowed, k, m := TakeRun(graphemes(text), target, limit, START, ps, 0, 0, []);
      RunTaken(ps, k, overflowed, target, w, m, []);
    }
  }

  /** `truncateToWidth`, from the point where the ellipsis is known to be narrower than `maxWidth`. */
  method TruncateWithEllipsis(text: Str, maxWidth: nat, ellipsis: Str, ellipsisWidth: nat, pad: bool,
                              graphemes: S.Segmenter) returns (result: Str)
    requires text != [] && ellipsisWidth < maxWidth && AsciiIsPlain(graphemes)
    ensures IsTruncated(result, text, maxWidth, ellipsis, ellipsisWidth, pad, graphemes)
  {
    hide Pieces, Width, TextOf, FinalizeTruncatedResult, IsLongest, Holds, AsciiIsPlain, Spaces;
    ghost var ps := Pieces(text, 0, graphemes);
    var targetWidth := maxWidth - ellipsisWidth;
    if IsPrintableAscii(text) {
      AsciiLongest(text, graphemes, targetWidth);
      if |text| <= maxWidth {
        return text + Padding(pad, maxWidth, |text|);
      }
      return FinalizeTruncatedResult(text[..targetWidth], targetWidth, ellipsis, ellipsisWidth, maxWidth, pad);
    }
    var w, overflowed;
    ghost var k, m;
    w, overflowed, k, m := ScanAny(text, targetWidth, maxWidth, graphemes);
    WalkEnds(ps, k, targetWidth, maxWidth, w, m);
    KeptIs(ps, k, targetWidth, w, m);
    if !overflowed {
      return text + Padding(pad, maxWidth, w.visibleSoFar);
    }
    result := FinalizeTruncatedResult(w.result, w.keptWidth, ellipsis, ellipsisWidth, maxWidth, pad);
  }

  /** What is left of an ellipsis that does not fit itself. */
  ghost predicate IsClippedEllipsis(result: Str, maxWidth: nat, ellipsis: Str, pad: bool, graphemes: S.Segmenter) {
    var es := Pieces(ellipsis, 0, graphemes);
    exists m: nat :: IsLongest(es, maxWidth, m) &&
      result == (if Width(es, m) == 0 then Padding(pad, maxWidth, 0)
                 else FinalizeTruncatedResult([], 0, TextOf(es, m), Width(es, m), maxWidth, pad))
  }

  /** `result` is what truncation of `text` must give, branch by branch. */
  ghost predicate IsTruncation(result: Str, text: Str, maxWidth: int, ellipsis: Str, pad: bool, graphemes: S.Segmenter) {
    if maxWidth <= 0 then result == []
    else if text == [] then result == Padding(pad, maxWidth, 0)
    else if VisibleWidth(ellipsis, graphemes) < maxWidth then
      IsTruncated(result, text, maxWidth, ellipsis, VisibleWidth(ellipsis, graphemes), pad, graphemes)
    else if VisibleWidth(text, graphemes) <= maxWidth then
      result == text + Padding(pad, maxWidth, VisibleWidth(text, graphemes))
    else IsClippedEllipsis(result, maxWidth, ellipsis, pad, graphemes)
  }

  method TruncateToWidth(text: Str, maxWidth: int, ellipsis: Str, pad: bool, graphemes: S.Segmenter)
    returns (result: Str)
    requires AsciiIsPlain(graphemes)
    ensures IsTruncation(result, text, maxWidth, ellipsis, pad, graphemes)
  {
    hide Pieces, Width, TextOf, IsLongest, AsciiIsPlain, IsTruncated, FinalizeTruncatedResult, Spaces;
    if maxWidth <= 0 {
      return [];
    }
    if |text| == 0 {
      return Padding(pad, maxWidth, 0);
    }
    var ellipsisWidth := VisibleWidth(ellipsis, graphemes);
    if ellipsisWidth >= maxWidth {
      var textWidth := VisibleWidth(text, graphemes);
      if textWidth <= maxWidth {
        return text + Padding(pad, maxWidth, textWidth);
      }
      var clipped, width;
      ghost var m;
      clipped, width, m := TruncateFragmentToWidth(ellipsis, maxWidth, graphemes);
      if width == 0 {
        return Padding(pad, maxWidth, 0);
      }
      return FinalizeTruncatedResult([], 0, clipped, width, maxWidth, pad);
    }
    result := TruncateWithEllipsis(text, maxWidth, ellipsis, ellipsisWidth, pad, graphemes);
  }
}
