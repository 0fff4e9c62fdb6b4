/**
 * What texts show when they are joined, and when their tabs are expanded first (packages/tui/src/utils.ts:198-257 and
 * 373-436): an unfinished escape sequence may be finished by what follows it, or by the spaces a tab becomes.
 */
module Seams {
  import opened AnsiScanner
  import opened Columns
  import opened Segments
  import opened Strings

  /** What `visibleWidth` measures: tabs become three spaces, then the escape sequences are taken out. */
  function Shown(text: Str): Str {
    Stripped(ExpandTabs(text), 0)
  }

  lemma {:induction false} ExpandedTogether(a: Str, b: Str)
    ensures ExpandTabs(a + b) == ExpandTabs(a) + ExpandTabs(b)
  {
    if a == [] {
      assert a + b == b;
    } else {
      assert (a + b)[1..] == a[1..] + b;
      ExpandedTogether(a[1..], b);
    }
  }

  lemma ShownWidth(text: Str, graphemes: Segmenter)
    requires AsciiIsPlain(graphemes)
    ensures VisibleWidth(text, graphemes) == TotalWidth(graphemes(Shown(text)))
  {
    hide ExpandTabs, Stripped, TotalWidth, AsciiIsPlain;
    if IsPrintableAscii(text) {
      assert forall u | u in text :: u != TAB;
      NothingExpanded(text);
      VisibleWidthWithoutTabs(text, graphemes);
    }
  }

  // ------------------------------------------------------------------ reading on

  lemma {:induction false} StrippedShift(text: Str, from: nat, i: nat)
    requires from <= i <= |text|
    ensures Stripped(text, i) == Stripped(text[from..], i - from)
    decreases |text| - i
  {
    hide AnsiEndAt;
    if i < |text| {
      ScanLooksForward(text, from, i);
      match AnsiEndAt(text, i) {
        case Some(end) => StrippedShift(text, from, end);
        case None => StrippedShift(text, from, i + 1);
      }
    }
  }

  lemma StrippedApart(a: Str, b: Str)
    requires Boundary(a + b, 0, |a|)
    ensures Stripped(a + b, 0) == Stripped(a, 0) + Stripped(b, 0)
  {
    hide Stripped, Boundary;
    var t := a + b;
    StrippedInHalves(t, 0, |a|);
    StrippedShift(t, |a|, |a|);
    assert t[..|a|] == a && t[|a|..] == b;
  }

  lemma StringEndShift(s: Str, from: nat, j: nat, allowBel: bool)
    requires from <= j <= |s|
    ensures ControlStringEnd(s[from..], j - from, allowBel) ==
            match ControlStringEnd(s, j, allowBel) case None => None case Some(end) => Some(end - from)
  {
    hide ControlStringEnd;
    var t := s[from..];
    if ControlStringEnd(s, j, allowBel).Some? {
      ControlStringEndMoves(s, j, t, j - from, allowBel);
    } else if ControlStringEnd(t, j - from, allowBel).Some? {
      ControlStringEndMoves(t, j - from, s, j, allowBel);
    }
  }

  lemma CsiEndShift(s: Str, from: nat, j: nat, hasIntermediate: bool)
    requires from <= j <= |s|
    ensures CsiEnd(s[from..], j - from, hasIntermediate) ==
            match CsiEnd(s, j, hasIntermediate) case None => None case Some(end) => Some(end - from)
  {
    hide CsiEnd;
    var t := s[from..];
    if CsiEnd(s, j, hasIntermediate).Some? {
      CsiEndMoves(s, j, t, j - from, hasIntermediate);
    } else if CsiEnd(t, j - from, hasIntermediate).Some? {
      CsiEndMoves(t, j - from, s, j, hasIntermediate);
    }
  }

  // ------------------------------------------------------------------ what may follow

  /** What begins like this finishes no control sequence left open before it; a control string it still may. */
  predicate Seals(tail: Str) {
    tail == [] || ((tail[0] == ESC || tail[0] == SPACE) && CsiEnd(tail, 0, false) == None && CsiEnd(tail, 0, true) == None)
  }

  lemma {:induction false} CsiSealed(p: Str, tail: Str, j: nat, hasIntermediate: bool)
    requires Seals(tail) && j <= |p| && CsiEnd(p, j, hasIntermediate) == None
    ensures CsiEnd(p + tail, j, hasIntermediate) == None
    decreases |p| - j
  {
    var t := p + tail;
    if j == |p| {
      CsiEndShift(t, |p|, |p|, hasIntermediate);
      assert t[|p|..] == tail;
    } else if IsParameter(p[j]) && !hasIntermediate {
      CsiSealed(p, tail, j + 1, hasIntermediate);
    } else if IsIntermediate(p[j]) {
      CsiSealed(p, tail, j + 1, true);
    }
  }

  lemma {:induction false} StringLeftOpen(p: Str, tail: Str, j: nat, allowBel: bool)
    requires Seals(tail) && j <= |p| && ControlStringEnd(p, j, allowBel) == None
    ensures ControlStringEnd(p + tail, j, allowBel) ==
            match ControlStringEnd(tail, 0, allowBel) case None => None case Some(end) => Some(|p| + end)
    decreases |p| - j
  {
    var t := p + tail;
    if j == |p| {
      StringEndShift(t, |p|, |p|, allowBel);
      assert t[|p|..] == tail;
    } else {
      StringLeftOpen(p, tail, j + 1, allowBel);
      assert t[j] == p[j];
      assert IsStringTerminator(t, j) <==> IsStringTerminator(p, j);
    }
  }

  /** Followed by such a tail, every code of `p` is kept, and new ones are exactly the strings left open that the tail ends. */
  lemma ScanSealed(p: Str, tail: Str, i: nat)
    requires Seals(tail) && i < |p|
    ensures AnsiEndAt(p + tail, i) ==
            match AnsiEndAt(p, i)
            case Some(end) => Some(end)
            case None =>
              if !IsOpener(p, i) then None
              else match ControlStringEnd(tail, 0, MayEndInBel(p[i + 1])) case None => None case Some(end) => Some(|p| + end)
  {
    hide CsiEnd, ControlStringEnd, Seals;
    var t := p + tail;
    if AnsiEndAt(p, i).Some? {
      hide AnsiEndAt;
      ScanIsLocal(p, i, t, i);
    } else if p[i] == ESC && i + 1 < |p| {
      if p[i + 1] == LEFT_BRACKET {
        CsiSealed(p, tail, i + 2, false);
      } else if OpensString(p[i + 1]) {
        StringLeftOpen(p, tail, i + 2, MayEndInBel(p[i + 1]));
      }
    } else if p[i] == ESC {
      SealStart(tail);
    }
  }

  lemma SealStart(tail: Str)
    requires Seals(tail)
    ensures tail != [] ==> tail[0] == ESC || tail[0] == SPACE
  {}

  // ------------------------------------------------------------------ strings left open

  /** From `i` on, a reader of `p` meets a control string that is left open and that `e` ends. */
  predicate EndsOpen(p: Str, i: nat, e: Str)
    decreases |p| - i
  {
    if i >= |p| then false
    else
      match AnsiEndAt(p, i)
      case Some(end) => EndsOpen(p, end, e)
      case None => (IsOpener(p, i) && ControlStringEnd(e, 0, MayEndInBel(p[i + 1])).Some?) || EndsOpen(p, i + 1, e)
  }

  /** The two end the same control strings. */
  ghost predicate EndAlike(tail: Str, e: Str) {
    forall allowBel :: ControlStringEnd(tail, 0, allowBel).Some? <==> ControlStringEnd(e, 0, allowBel).Some?
  }

  /** A reader of the joined text stands at the seam exactly when nothing before it is ended behind it. */
  lemma {:induction false} StandsAtSeam(p: Str, i: nat, e: Str, tail: Str)
    requires Seals(tail) && EndAlike(tail, e) && i <= |p|
    ensures Boundary(p + tail, i, |p|) <==> !EndsOpen(p, i, e)
    decreases |p| - i
  {
    hide AnsiEndAt, ControlStringEnd, Seals;
    if i < |p| {
      ScanSealed(p, tail, i);
      match AnsiEndAt(p, i) {
        case Some(end) => StandsAtSeam(p, end, e, tail);
        case None => StandsAtSeam(p, i + 1, e, tail);
      }
    }
  }

  lemma {:induction false} NothingEnded(p: Str, i: nat, e: Str)
    requires i <= |p| && forall allowBel :: ControlStringEnd(e, 0, allowBel) == None
    ensures !EndsOpen(p, i, e)
    decreases |p| - i
  {
    hide AnsiEndAt, ControlStringEnd;
    if i < |p| {
      match AnsiEndAt(p, i) {
        case Some(end) => NothingEnded(p, end, e);
        case None => NothingEnded(p, i + 1, e);
      }
    }
  }

  lemma {:induction false} NothingOpen(p: Str, i: nat, e: Str)
    requires i <= |p| && ESC !in p
    ensures !EndsOpen(p, i, e)
    decreases |p| - i
  {
    if i < |p| {
      assert p[i] in p;
      NothingOpen(p, i + 1, e);
    }
  }

  /** Before a text without escape characters a reader stands at every place. */
  lemma PlainThen(p: Str, tail: Str)
    requires ESC !in p
    ensures Boundary(p + tail, 0, |p|)
  {
    hide Boundary;
    var t := p + tail;
    forall j | 0 <= j < |p|
      ensures AnsiEndAt(t, j) == None
    {
      assert t[j] == p[j] && p[j] in p;
    }
    assert Boundary(t, 0, 0) by { AtStart(t); }
    BoundaryRun(t, 0, 0, |p|);
  }

  lemma AtStart(t: Str)
    ensures Boundary(t, 0, 0)
  {}

  /** A tail that ends nothing by itself leaves it to what stands in front. */
  lemma FrontEnds(e: Str, tail: Str)
    requires Seals(tail) && forall allowBel :: ControlStringEnd(tail, 0, allowBel) == None
    ensures EndAlike(e + tail, e)
  {
    hide ControlStringEnd, Seals;
    forall allowBel
      ensures ControlStringEnd(e + tail, 0, allowBel).Some? <==> ControlStringEnd(e, 0, allowBel).Some?
    {
      if ControlStringEnd(e, 0, allowBel).Some? {
        ControlStringEndMoves(e, 0, e + tail, 0, allowBel);
      } else {
        StringLeftOpen(e, tail, 0, allowBel);
      }
    }
  }

  /** Where `e` ends a control string left open before it, its own reader stands as well. */
  ghost predicate EndsWhole(e: Str) {
    forall allowBel ::
      match ControlStringEnd(e, 0, allowBel)
      case None => true
      case Some(end) => Boundary(e, 0, end)
  }

  /** A string left open swallows what it holds: fewer characters are shown than by the two parts. */
  lemma {:induction false} Swallowed(p: Str, i: nat, e: Str, tail: Str)
    requires Seals(tail) && EndAlike(tail, e) && EndsWhole(tail) && EndsOpen(p, i, e)
    ensures i < |p| && |Stripped(p + tail, i)| < |Stripped(p, i)| + |Stripped(tail, 0)|
    decreases |p| - i
  {
    hide AnsiEndAt, ControlStringEnd, Seals, Boundary, EndsWhole, MayEndInBel;
    ScanSealed(p, tail, i);
    match AnsiEndAt(p, i) {
      case Some(end) => Swallowed(p, end, e, tail);
      case None =>
        if AnsiEndAt(p + tail, i).Some? {
          SwallowedHere(p, tail, MayEndInBel(p[i + 1]));
        } else {
          assert !(IsOpener(p, i) && ControlStringEnd(e, 0, MayEndInBel(p[i + 1])).Some?);
          Swallowed(p, i + 1, e, tail);
        }
    }
  }

  lemma SwallowedHere(p: Str, tail: Str, allowBel: bool)
    requires EndsWhole(tail) && ControlStringEnd(tail, 0, allowBel).Some?
    ensures |Stripped(p + tail, |p| + ControlStringEnd(tail, 0, allowBel).value)| <= |Stripped(tail, 0)|
  {
    hide ControlStringEnd, Boundary, Stripped;
    var end, t := ControlStringEnd(tail, 0, allowBel).value, p + tail;
    assert Boundary(tail, 0, end);
    StrippedInHalves(tail, 0, end);
    StrippedShift(t, |p|, |p| + end);
    assert t[|p|..] == tail;
  }

  lemma {:induction false} BoundaryInFront(e: Str, tail: Str, i: nat, p: nat)
    requires Seals(tail) && (forall allowBel :: ControlStringEnd(tail, 0, allowBel) == None)
    requires Boundary(e, i, p) && p <= |e|
    ensures Boundary(e + tail, i, p)
    decreases |e| - i
  {
    hide AnsiEndAt, ControlStringEnd, Seals;
    if i < p {
      ScanSealed(e, tail, i);
      match AnsiEndAt(e, i) {
        case Some(end) => BoundaryInFront(e, tail, end, p);
        case None => BoundaryInFront(e, tail, i + 1, p);
      }
    }
  }

  lemma {:induction false} BoundaryBehind(text: Str, from: nat, i: nat, p: nat)
    requires from <= i <= |text| && i <= p && Boundary(text[from..], i - from, p - from)
    ensures Boundary(text, i, p)
    decreases |text| - i
  {
    hide AnsiEndAt;
    if i < p && i < |text| {
      ScanLooksForward(text, from, i);
      match AnsiEndAt(text, i) {
        case Some(end) =>
          assert end <= p;
          BoundaryBehind(text, from, end, p);
        case None => BoundaryBehind(text, from, i + 1, p);
      }
    }
  }

  // ------------------------------------------------------------------ tabs

  /** Where a control sequence body ends if a tab counts as an intermediate byte, as the spaces do that it becomes. */
  function TabbedCsiEnd(s: Str, hasIntermediate: bool): (r: Option<nat>)
    ensures r.Some? ==> 0 < r.value <= |s| && forall k | 0 <= k < r.value :: s[k] != ESC
  {
    if s == [] then None
    else if IsFinal(s[0]) then Some(1)
    else if (IsParameter(s[0]) && !hasIntermediate) || IsIntermediate(s[0]) || s[0] == TAB then
      match TabbedCsiEnd(s[1..], hasIntermediate || !IsParameter(s[0]))
      case None => None
      case Some(end) => Some(end + 1)
    else None
  }

  /** No code begins here, but expanding the tabs makes one. */
  predicate TabMakesCode(s: Str) {
    && |s| > 1 && s[0] == ESC && s[1] == LEFT_BRACKET
    && AnsiEndAt(s, 0) == None && TabbedCsiEnd(s[2..], false).Some?
  }

  /** Wherever a reader of `s` stands, no tab turns what follows into a control sequence. */
  predicate TabsStayOut(s: Str) {
    if s == [] then true
    else
      match AnsiEndAt(s, 0)
      case Some(end) => TabsStayOut(s[end..])
      case None => !TabMakesCode(s) && TabsStayOut(s[1..])
  }

  lemma ExpandedHead(s: Str)
    requires s != []
    ensures ExpandTabs(s) == ExpandTabs([s[0]]) + ExpandTabs(s[1..])
    ensures ExpandTabs([s[0]]) == if s[0] == TAB then [SPACE, SPACE, SPACE] else [s[0]]
  {
    assert s == [s[0]] + s[1..];
    ExpandedTogether([s[0]], s[1..]);
    var none: Str := [s[0]][1..];
    assert none == [];
  }

  lemma {:induction false} ExpandedGrows(s: Str)
    ensures |ExpandTabs(s)| >= |s|
  {
    if s != [] { ExpandedGrows(s[1..]); }
  }

  lemma ExpandedUpTo(s: Str, n: nat)
    requires n <= |s|
    ensures ExpandTabs(s) == ExpandTabs(s[..n]) + ExpandTabs(s[n..])
  {
    assert s == s[..n] + s[n..];
    ExpandedTogether(s[..n], s[n..]);
  }

  lemma CsiEndAfter(x: Str, y: Str, j: nat, hasIntermediate: bool)
    requires j == |x|
    ensures CsiEnd(x + y, j, hasIntermediate) ==
            match CsiEnd(y, 0, hasIntermediate) case None => None case Some(end) => Some(j + end)
  {
    hide CsiEnd;
    CsiEndShift(x + y, j, j, hasIntermediate);
    assert (x + y)[j..] == y;
  }

  lemma StringEndAfter(x: Str, y: Str, j: nat, allowBel: bool)
    requires j == |x|
    ensures ControlStringEnd(x + y, j, allowBel) ==
            match ControlStringEnd(y, 0, allowBel) case None => None case Some(end) => Some(j + end)
  {
    hide ControlStringEnd;
    StringEndShift(x + y, j, j, allowBel);
    assert (x + y)[j..] == y;
  }

  lemma HeadOfPrefix(s: Str, end: nat)
    requires 0 < end <= |s|
    ensures ExpandTabs(s[..end]) == ExpandTabs([s[0]]) + ExpandTabs(s[1..][..end - 1])
  {
    hide ExpandTabs;
    var head := s[..end];
    ExpandedHead(head);
    assert head[1..] == s[1..][..end - 1];
  }

  lemma ExpandedNothing()
    ensures ExpandTabs([]) == []
  {}

  /** One character of a control sequence body, expanded. */
  lemma CsiStep(u: Unit, rest: Str, hasIntermediate: bool)
    requires (IsParameter(u) && !hasIntermediate) || IsIntermediate(u) || u == TAB
    ensures var x: Str := if u == TAB then [SPACE, SPACE, SPACE] else [u];
            CsiEnd(x + rest, 0, hasIntermediate) ==
            match CsiEnd(rest, 0, hasIntermediate || !IsParameter(u)) case None => None case Some(end) => Some(|x| + end)
  {
    var x: Str := if u == TAB then [SPACE, SPACE, SPACE] else [u];
    var t, after := x + rest, hasIntermediate || !IsParameter(u);
    CsiEndAfter(x, rest, |x|, after);
    if u == TAB {
      assert CsiEnd(t, 1, true) == CsiEnd(t, 2, true) == CsiEnd(t, 3, true);
    }
  }

  /** Expanding the tabs turns exactly these stretches into control sequences. */
  lemma {:induction false} ExpandedCsi(s: Str, hasIntermediate: bool)
    ensures CsiEnd(ExpandTabs(s), 0, hasIntermediate) ==
            match TabbedCsiEnd(s, hasIntermediate) case None => None case Some(end) => Some(|ExpandTabs(s[..end])|)
  {
    hide ExpandTabs;
    ExpandedNothing();
    if s != [] {
      ExpandedHead(s);
      if IsFinal(s[0]) {
        HeadOfPrefix(s, 1);
      } else if (IsParameter(s[0]) && !hasIntermediate) || IsIntermediate(s[0]) || s[0] == TAB {
        hide CsiEnd;
        var after := hasIntermediate || !IsParameter(s[0]);
        ExpandedCsi(s[1..], after);
        CsiStep(s[0], ExpandTabs(s[1..]), hasIntermediate);
        if TabbedCsiEnd(s, hasIntermediate).Some? { HeadOfPrefix(s, TabbedCsiEnd(s, hasIntermediate).value); }
      }
    }
  }

  /** One character that ends no control string, expanded. */
  lemma StringStep(u: Unit, rest: Str, allowBel: bool)
    requires !(u == BEL && allowBel) && (u == ESC && rest != [] ==> rest[0] != BACKSLASH)
    ensures var x: Str := if u == TAB then [SPACE, SPACE, SPACE] else [u];
            ControlStringEnd(x + rest, 0, allowBel) ==
            match ControlStringEnd(rest, 0, allowBel) case None => None case Some(end) => Some(|x| + end)
  {
    var x: Str := if u == TAB then [SPACE, SPACE, SPACE] else [u];
    var t := x + rest;
    StringEndAfter(x, rest, |x|, allowBel);
    if u == TAB {
      assert ControlStringEnd(t, 1, allowBel) == ControlStringEnd(t, 2, allowBel) == ControlStringEnd(t, 3, allowBel);
    }
  }

  /** Control strings stay what they are. */
  lemma {:induction false} ExpandedString(s: Str, allowBel: bool)
    ensures ControlStringEnd(ExpandTabs(s), 0, allowBel) ==
            match ControlStringEnd(s, 0, allowBel) case None => None case Some(end) => Some(|ExpandTabs(s[..end])|)
  {
    hide ExpandTabs;
    ExpandedNothing();
    if s != [] {
      ExpandedHead(s);
      if s[0] == BEL && allowBel {
        HeadOfPrefix(s, 1);
      } else if IsStringTerminator(s, 0) {
        TwoPlain(s);
      } else {
        ExpandedString(s[1..], allowBel);
        if s[1..] != [] { ExpandedHead(s[1..]); }
        StringStep(s[0], ExpandTabs(s[1..]), allowBel);
        StringEndShift(s, 1, 1, allowBel);
        if ControlStringEnd(s, 0, allowBel).Some? { HeadOfPrefix(s, ControlStringEnd(s, 0, allowBel).value); }
      }
    }
  }

  lemma TwoPlain(s: Str)
    requires |s| >= 2 && s[0] != TAB && s[1] != TAB
    ensures ExpandTabs(s[..2]) == s[..2] && ExpandTabs(s) == s[..2] + ExpandTabs(s[2..])
  {
    hide ExpandTabs;
    TwoTabless(s);
    NothingExpanded(s[..2]);
    ExpandedUpTo(s, 2);
  }

  lemma TwoTabless(s: Str)
    requires |s| >= 2 && s[0] != TAB && s[1] != TAB
    ensures TAB !in s[..2]
  {}

  /** What is read at the head of a text once its tabs are expanded. */
  lemma ExpandedScan(s: Str)
    requires s != []
    ensures AnsiEndAt(ExpandTabs(s), 0) ==
            match AnsiEndAt(s, 0)
            case Some(end) => Some(|ExpandTabs(s[..end])|)
            case None => if TabMakesCode(s) then Some(|ExpandTabs(s[..2 + TabbedCsiEnd(s[2..], false).value])|) else None
  {
    hide ExpandTabs, CsiEnd, ControlStringEnd, TabbedCsiEnd;
    ExpandedHead(s);
    if s[0] == ESC && |s| > 1 {
      ExpandedHead(s[1..]);
      if s[1] != TAB {
        TwoPlain(s);
        if s[1] == LEFT_BRACKET {
          ExpandedCsi(s[2..], false);
          CsiEndAfter(s[..2], ExpandTabs(s[2..]), 2, false);
          CsiHead(s);
          if TabbedCsiEnd(s[2..], false).Some? { HeadExpanded(s, TabbedCsiEnd(s[2..], false).value); }
        } else if OpensString(s[1]) {
          ExpandedString(s[2..], MayEndInBel(s[1]));
          StringEndAfter(s[..2], ExpandTabs(s[2..]), 2, MayEndInBel(s[1]));
          StringEndShift(s, 2, 2, MayEndInBel(s[1]));
          if AnsiEndAt(s, 0).Some? { HeadExpanded(s, AnsiEndAt(s, 0).value - 2); }
        }
      }
    } else if s[0] == ESC {
      ExpandedNothing();
    }
  }

  lemma HeadExpanded(s: Str, n: nat)
    requires 2 + n <= |s| && s[0] != TAB && s[1] != TAB
    ensures ExpandTabs(s[..2 + n]) == s[..2] + ExpandTabs(s[2..][..n])
  {
    hide ExpandTabs;
    TwoPlain(s[..2 + n]);
    assert s[..2 + n][..2] == s[..2] && s[..2 + n][2..] == s[2..][..n];
  }

  lemma CsiHead(s: Str)
    requires |s| > 1 && s[0] == ESC && s[1] == LEFT_BRACKET
    ensures CsiEnd(s, 2, false).Some? ==> TabbedCsiEnd(s[2..], false) == Some(CsiEnd(s, 2, false).value - 2)
  {
    hide CsiEnd, TabbedCsiEnd;
    CsiEndShift(s, 2, 2, false);
    if CsiEnd(s, 2, false).Some? {
      CsiIsTabbed(s[2..], false);
    }
  }

  lemma {:induction false} CsiIsTabbed(s: Str, hasIntermediate: bool)
    requires CsiEnd(s, 0, hasIntermediate).Some?
    ensures TabbedCsiEnd(s, hasIntermediate) == CsiEnd(s, 0, hasIntermediate)
  {
    if !IsFinal(s[0]) {
      var after := hasIntermediate || !IsParameter(s[0]);
      CsiEndShift(s, 1, 1, after);
      CsiIsTabbed(s[1..], after);
    }
  }

  lemma SameHead(x: Str, a: Str, b: Str)
    ensures x + a == x + b <==> a == b
  {
    if x + a == x + b {
      assert a == (x + a)[|x|..] == (x + b)[|x|..] == b;
    }
  }

  /**
   * Expanding tabs and taking out the codes commute exactly for the texts in which no tab turns what follows an escape
   * character into a control sequence; otherwise something is lost.
   */
  lemma {:induction false} TabsAndCodesCommute(s: Str)
    ensures |Shown(s)| <= |ExpandTabs(Stripped(s, 0))|
    ensures Shown(s) == ExpandTabs(Stripped(s, 0)) <==> TabsStayOut(s)
    decreases |s|
  {
    hide AnsiEndAt, TabMakesCode, ExpandTabs, TabbedCsiEnd, Stripped;
    if s == [] {
      NothingShown();
    } else {
      ExpandedScan(s);
      match AnsiEndAt(s, 0) {
        case Some(end) =>
          CodeGone(s, end);
          TabsAndCodesCommute(s[end..]);
        case None =>
          if TabMakesCode(s) {
            var end := MadeCodeGone(s);
            TabsAndCodesCommute(s[end..]);
          } else {
            HeadStays(s);
            TabsAndCodesCommute(s[1..]);
            SameHead(ExpandTabs([s[0]]), Shown(s[1..]), ExpandTabs(Stripped(s[1..], 0)));
          }
      }
    }
  }

  lemma NothingShown()
    ensures Shown([]) == [] && Stripped([], 0) == [] && ExpandTabs([]) == []
  {}

  lemma CodeGone(s: Str, end: nat)
    requires s != [] && AnsiEndAt(s, 0) == Some(end) && AnsiEndAt(ExpandTabs(s), 0) == Some(|ExpandTabs(s[..end])|)
    ensures Shown(s) == Shown(s[end..]) && Stripped(s, 0) == Stripped(s[end..], 0)
  {
    hide AnsiEndAt, ExpandTabs;
    var x := ExpandTabs(s[..end]);
    ExpandedUpTo(s, end);
    StrippedShift(s, end, end);
    StrippedShift(ExpandTabs(s), |x|, |x|);
    assert ExpandTabs(s)[|x|..] == ExpandTabs(s[end..]);
  }

  lemma HeadStays(s: Str)
    requires s != [] && AnsiEndAt(s, 0) == None && AnsiEndAt(ExpandTabs(s), 0) == None
    ensures Shown(s) == ExpandTabs([s[0]]) + Shown(s[1..])
    ensures ExpandTabs(Stripped(s, 0)) == ExpandTabs([s[0]]) + ExpandTabs(Stripped(s[1..], 0))
  {
    hide AnsiEndAt, ExpandTabs, Stripped;
    var x, rest := ExpandTabs([s[0]]), ExpandTabs(s[1..]);
    ExpandedHead(s);
    UnitStays(s[0], s[1..], s);
    ExpandedTogether([s[0]], Stripped(s[1..], 0));
    if s[0] == TAB {
      SpacesStay(x, rest);
    } else {
      UnitStays(s[0], rest, ExpandTabs(s));
    }
  }

  lemma UnitStays(u: Unit, rest: Str, s: Str)
    requires s == [u] + rest && AnsiEndAt(s, 0) == None
    ensures Stripped(s, 0) == [u] + Stripped(rest, 0)
  {
    hide AnsiEndAt;
    StrippedShift(s, 1, 1);
    assert s[1..] == rest;
  }

  lemma SpacesStay(x: Str, rest: Str)
    requires ESC !in x
    ensures Stripped(x + rest, 0) == x + Stripped(rest, 0)
  {
    hide Stripped, Boundary;
    PlainThen(x, rest);
    StrippedApart(x, rest);
    NothingStripped(x, 0);
    assert x[0..] == x;
  }

  lemma MadeCodeGone(s: Str) returns (end: nat)
    requires TabMakesCode(s)
    requires AnsiEndAt(ExpandTabs(s), 0) == Some(|ExpandTabs(s[..2 + TabbedCsiEnd(s[2..], false).value])|)
    ensures 0 < end <= |s| && Shown(s) == Shown(s[end..]) && |ExpandTabs(Stripped(s, 0))| > |ExpandTabs(Stripped(s[end..], 0))|
  {
    hide AnsiEndAt, ExpandTabs, TabbedCsiEnd, Stripped, Boundary;
    end := 2 + TabbedCsiEnd(s[2..], false).value;
    var x, head := ExpandTabs(s[..end]), s[..end];
    ExpandedUpTo(s, end);
    StrippedOfCode(ExpandTabs(s), |x|);
    assert ExpandTabs(s)[|x|..] == ExpandTabs(s[end..]);
    assert head + s[end..] == s;
    NoCodeBefore(s, end);
    StrippedApart(head, s[end..]);
    StrippedPlain(head, s, end);
    ExpandedTogether(head, Stripped(s[end..], 0));
    ExpandedGrows(head);
  }

  lemma StrippedOfCode(t: Str, end: nat)
    requires AnsiEndAt(t, 0) == Some(end)
    ensures Stripped(t, 0) == Stripped(t[end..], 0)
  {
    hide AnsiEndAt;
    StrippedShift(t, end, end);
  }

  lemma NoCodeBefore(s: Str, end: nat)
    requires TabMakesCode(s) && end == 2 + TabbedCsiEnd(s[2..], false).value
    ensures Boundary(s, 0, end) && forall j | 0 <= j < end :: AnsiEndAt(s, j) == None
  {
    hide TabbedCsiEnd, Boundary;
    forall j | 0 <= j < end
      ensures AnsiEndAt(s, j) == None
    {
      assert j >= 2 ==> s[2..][j - 2] != ESC;
    }
    hide AnsiEndAt;
    AtStart(s);
    BoundaryRun(s, 0, 0, end);
  }

  lemma StrippedPlain(head: Str, s: Str, end: nat)
    requires end <= |s| && head == s[..end] && forall j | 0 <= j < end :: AnsiEndAt(s, j) == None
    ensures Stripped(head, 0) == head
  {
    hide AnsiEndAt, Stripped;
    forall j | 0 <= j < end
      ensures AnsiEndAt(head, j) == None
    {
      ScanOfPrefix(s, end, j);
    }
    StrippedRun(head, 0);
    assert head[0..] == head;
  }
}
