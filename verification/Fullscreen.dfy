/** The fullscreen viewport (packages/tui/src/fullscreen.ts): scrolling, frame composition and the row-diff painter. */
module Fullscreen {
  import opened Strings
  import C = Columns
  import L = LineWidth
  import Seams
  import S = Segments

  const FULLSCREEN_MIN_TRANSCRIPT_ROWS: nat := 3

  function Max(a: int, b: int): int { if a >= b then a else b }

  function Min(a: int, b: int): int { if a <= b then a else b }

  // ------------------------------------------------------------------ scrolling

  /** The bottom rows of the dock win over its top rows, and the transcript keeps at least three rows if there are three. */
  function ClippedFullscreenDockHeight(dockLength: nat, height: nat): (r: nat)
    ensures r <= dockLength && r <= height
    ensures height - r >= Min(height, FULLSCREEN_MIN_TRANSCRIPT_ROWS)
    ensures r < dockLength ==> height - r == Min(height, FULLSCREEN_MIN_TRANSCRIPT_ROWS)
  {
    Min(dockLength, Max(0, height - FULLSCREEN_MIN_TRANSCRIPT_ROWS))
  }

  datatype Scroll = Scroll(top: nat, following: bool, maxScroll: nat) {
    predicate Sound() {
      top <= maxScroll && (following ==> top == maxScroll)
    }
  }

  function MaxScroll(length: nat, windowHeight: nat): nat {
    Max(0, length - windowHeight)
  }

  /** A frame is composed over a transcript of `length` lines. */
  function Composed(s: Scroll, length: nat, windowHeight: nat): (r: Scroll)
    ensures r.Sound()
    ensures r.following == s.following && r.maxScroll == MaxScroll(length, windowHeight)
    ensures !s.following && s.top <= r.maxScroll ==> r.top == s.top
    ensures !s.following && s.top > r.maxScroll ==> r.top == r.maxScroll
  {
    var maxScroll := MaxScroll(length, windowHeight);
    Scroll(if s.following then maxScroll else Max(0, Min(s.top, maxScroll)), s.following, maxScroll)
  }

  function ScrolledBy(s: Scroll, delta: int): Scroll {
    var base := if s.following then s.maxScroll else s.top;
    var top := Max(0, Min(base + delta, s.maxScroll));
    Scroll(top, top >= s.maxScroll, s.maxScroll)
  }

  function ScrolledToTop(s: Scroll): Scroll {
    Scroll(0, s.maxScroll == 0, s.maxScroll)
  }

  function ScrolledToBottom(s: Scroll): Scroll {
    Scroll(s.maxScroll, true, s.maxScroll)
  }

  /** Scrolling moves the window by the lines asked for, or to the end of the transcript that is nearer, and follows exactly
      when it comes to stand at the last line. */
  lemma ScrollingMoves(s: Scroll, delta: int)
    requires s.Sound()
    ensures var r := ScrolledBy(s, delta);
            && r.Sound() && r.maxScroll == s.maxScroll && (r.following <==> r.top == r.maxScroll)
            && (0 <= s.top + delta <= s.maxScroll ==> r.top == s.top + delta)
            && (s.top + delta < 0 ==> r.top == 0) && (s.top + delta > s.maxScroll ==> r.top == s.maxScroll)
    ensures var all: int := s.maxScroll; ScrolledToTop(s) == ScrolledBy(s, -all) && ScrolledToBottom(s) == ScrolledBy(s, all)
  {}

  /** Scrolling back undoes scrolling exactly when no end of the transcript cut the way there short, or the way back is
      cut short at the line it started from. */
  lemma ScrollingBack(s: Scroll, delta: int)
    requires s.Sound()
    ensures ScrolledBy(ScrolledBy(s, delta), -delta).top == s.top <==>
            0 <= s.top + delta <= s.maxScroll || (s.top == 0 && delta > 0) || (s.top == s.maxScroll && delta < 0)
  {}

  // ------------------------------------------------------------------ frames

  /** Row `i` of the window: the decorated transcript line, or nothing below its end. */
  function WindowRow(transcript: seq<Str>, top: nat, decorate: (nat, Str) -> Str, i: nat): Str {
    if top + i < |transcript| then decorate(top + i, transcript[top + i]) else []
  }

  /** The frame has exactly `height` rows: the window at `top`, then the last rows of the dock. */
  ghost predicate IsFrame(frame: seq<Str>, transcript: seq<Str>, dock: seq<Str>, height: nat, top: nat, decorate: (nat, Str) -> Str) {
    var dockHeight := ClippedFullscreenDockHeight(|dock|, height);
    && |frame| == height
    && (forall i: nat | i < height - dockHeight :: frame[i] == WindowRow(transcript, top, decorate, i))
    && frame[height - dockHeight..] == dock[|dock| - dockHeight..]
  }

  lemma FrameComposed(window: seq<Str>, dockLines: seq<Str>, transcript: seq<Str>, dock: seq<Str>, height: nat, top: nat,
                      decorate: (nat, Str) -> Str)
    requires |window| == height - ClippedFullscreenDockHeight(|dock|, height)
    requires forall k: nat | k < |window| :: window[k] == WindowRow(transcript, top, decorate, k)
    requires dockLines == dock[|dock| - ClippedFullscreenDockHeight(|dock|, height)..]
    ensures IsFrame(window + dockLines, transcript, dock, height, top, decorate)
  {
    hide WindowRow, ClippedFullscreenDockHeight;
    assert (window + dockLines)[|window|..] == dockLines;
  }

  lemma LastRow(transcript: seq<Str>, windowHeight: nat, decorate: (nat, Str) -> Str)
    requires 0 < windowHeight <= |transcript|
    ensures WindowRow(transcript, MaxScroll(|transcript|, windowHeight), decorate, windowHeight - 1) ==
            decorate(|transcript| - 1, transcript[|transcript| - 1])
  {}

  // ------------------------------------------------------------------ the terminal

  /** Over-wide lines are cut, for they would wrap and shear the grid. */
  function Clamp(line: Str, width: nat, graphemes: S.Segmenter): Str {
    if C.VisibleWidth(line, graphemes) > width then C.SliceByColumn(line, 0, width, true, graphemes) else line
  }

  /** The cut line does fit: see `FitsExactlyWhen`. */
  predicate Fits(line: Str, width: nat, graphemes: S.Segmenter) {
    C.VisibleWidth(Clamp(line, width, graphemes), graphemes) <= width
  }

  datatype Command =
    | BeginSync | EndSync | Clear | GoTo(row: int, col: nat) | EraseLine | Text(text: Str)

  /** A grid of rows and a cursor; `sheared` once a text ran over the edge or over another text. */
  datatype Terminal = Terminal(width: nat, rows: seq<Str>, row: int, col: nat, sheared: bool) {
    function Height(): nat { |rows| }
  }

  function Exec(graphemes: S.Segmenter, t: Terminal, c: Command): Terminal {
    match c
    case BeginSync => t
    case EndSync => t
    case Clear => t.(rows := seq(|t.rows|, _ => []), row := 0, col := 0, sheared := false)
    case GoTo(row, col) => t.(row := Max(0, Min(row, |t.rows| - 1)), col := col)
    case EraseLine => if 0 <= t.row < |t.rows| then t.(rows := t.rows[t.row := []]) else t
    case Text(text) =>
      if 0 <= t.row < |t.rows| && t.rows[t.row] == [] && t.col == 0 && C.VisibleWidth(text, graphemes) <= t.width then
        t.(rows := t.rows[t.row := text])
      else t.(sheared := true)
  }

  function ExecAll(graphemes: S.Segmenter, t: Terminal, cs: seq<Command>): Terminal
    decreases |cs|
  {
    if cs == [] then t else ExecAll(graphemes, Exec(graphemes, t, cs[0]), cs[1..])
  }

  lemma {:induction false} ExecConcat(graphemes: S.Segmenter, t: Terminal, a: seq<Command>, b: seq<Command>)
    ensures ExecAll(graphemes, t, a + b) == ExecAll(graphemes, ExecAll(graphemes, t, a), b)
    decreases |a|
  {
    if a == [] {
      assert a + b == b;
    } else {
      assert (a + b)[1..] == a[1..] + b;
      ExecConcat(graphemes, Exec(graphemes, t, a[0]), a[1..], b);
    }
  }

  // ------------------------------------------------------------------ the painter

  datatype Cursor = Cursor(row: nat, col: nat)

  /** What the painter remembers of its last frame. */
  datatype Painter = Painter(frame: seq<Str>, width: nat, height: nat)

  /** Over-tall frames show their bottom rows. */
  function Bottom(frame: seq<Str>, height: nat): (r: seq<Str>)
    ensures |r| <= height
  {
    if |frame| > height then frame[|frame| - height..] else frame
  }

  function Line(frame: seq<Str>, row: nat): Str {
    if row < |frame| then frame[row] else []
  }

  predicate Clears(p: Painter, width: nat, height: nat) {
    width != p.width || height != p.height || p.frame == []
  }

  predicate Unchanged(prev: seq<Str>, frame: seq<Str>, row: nat) {
    row < |prev| && prev[row] == Line(frame, row)
  }

  function RowCommands(graphemes: S.Segmenter, prev: seq<Str>, frame: seq<Str>, width: nat, row: nat): seq<Command> {
    if Unchanged(prev, frame, row) then []
    else [GoTo(row, 0), EraseLine, Text(Clamp(Line(frame, row), width, graphemes))]
  }

  /** The commands for the first `n` rows. */
  function RowsCommands(graphemes: S.Segmenter, prev: seq<Str>, frame: seq<Str>, width: nat, n: nat): seq<Command>
    decreases n
  {
    if n == 0 then [] else RowsCommands(graphemes, prev, frame, width, n - 1) + RowCommands(graphemes, prev, frame, width, n - 1)
  }

  function CursorCommands(cursor: Option<Cursor>, height: nat): seq<Command> {
    if cursor.Some? then [GoTo(Min(cursor.value.row, height - 1), cursor.value.col)] else []
  }

  function PaintCommands(graphemes: S.Segmenter, p: Painter, frame: seq<Str>, width: nat, height: nat, cursor: Option<Cursor>): seq<Command> {
    var clears := Clears(p, width, height);
    [BeginSync] + (if clears then [Clear] else []) +
    RowsCommands(graphemes, if clears then [] else p.frame, Bottom(frame, height), width, height) +
    CursorCommands(cursor, height) + [EndSync]
  }

  /** What a frame should look like on a screen: its bottom rows, cut to the width, and blank rows below. */
  function Shown(graphemes: S.Segmenter, frame: seq<Str>, width: nat, height: nat): (rows: seq<Str>)
    ensures |rows| == height
  {
    seq(height, (row: nat) => Clamp(Line(Bottom(frame, height), row), width, graphemes))
  }

  /** What stands in a row once it was repainted: the cut line, or nothing if that does not fit. */
  function PaintedRow(graphemes: S.Segmenter, frame: seq<Str>, width: nat, row: nat): Str {
    if Fits(Line(frame, row), width, graphemes) then Clamp(Line(frame, row), width, graphemes) else []
  }

  /** The rows the painter means to leave alone do hold what they should. */
  ghost predicate SkippedRowsHold(graphemes: S.Segmenter, prev: seq<Str>, frame: seq<Str>, t: Terminal) {
    forall row: nat | row < t.Height() && Unchanged(prev, frame, row) :: t.rows[row] == Clamp(Line(frame, row), t.width, graphemes)
  }

  lemma RowPainted(graphemes: S.Segmenter, prev: seq<Str>, frame: seq<Str>, row: nat, t: Terminal)
    requires row < t.Height()
    ensures var r := ExecAll(graphemes, t, RowCommands(graphemes, prev, frame, t.width, row));
            && r.width == t.width
            && r.rows == (if Unchanged(prev, frame, row) then t.rows else t.rows[row := PaintedRow(graphemes, frame, t.width, row)])
            && r.sheared == (t.sheared || (!Unchanged(prev, frame, row) && !Fits(Line(frame, row), t.width, graphemes)))
  {
    hide Unchanged, Line, Clamp;
    if !Unchanged(prev, frame, row) {
      var text := Clamp(Line(frame, row), t.width, graphemes);
      var t1 := Exec(graphemes, t, GoTo(row, 0));
      var t2 := Exec(graphemes, t1, EraseLine);
      assert t1.row == row && t1.col == 0 && t2.row == row && t2.col == 0 && t2.width == t.width;
      assert t2.rows == t.rows[row := []] && t2.rows[row] == [] && t2.sheared == t.sheared;
      TextPainted(graphemes, t2, text);
      assert t.rows[row := []][row := text] == t.rows[row := text];
      assert RowCommands(graphemes, prev, frame, t.width, row) == [GoTo(row, 0), EraseLine, Text(text)];
      ExecThree(graphemes, t, GoTo(row, 0), EraseLine, Text(text));
    }
  }

  lemma TextPainted(graphemes: S.Segmenter, t: Terminal, text: Str)
    requires 0 <= t.row < |t.rows| && t.rows[t.row] == [] && t.col == 0
    ensures var r := Exec(graphemes, t, Text(text));
            if C.VisibleWidth(text, graphemes) <= t.width then r == t.(rows := t.rows[t.row := text])
            else r == t.(sheared := true)
  {}

  lemma ExecThree(graphemes: S.Segmenter, t: Terminal, a: Command, b: Command, c: Command)
    ensures ExecAll(graphemes, t, [a, b, c]) == Exec(graphemes, Exec(graphemes, Exec(graphemes, t, a), b), c)
  {
    hide Exec;
    var none: seq<Command> := [];
    assert [a, b, c][1..] == [b, c] && [b, c][1..] == [c] && [c][1..] == none;
    assert ExecAll(graphemes, Exec(graphemes, t, a), [b, c]) == ExecAll(graphemes, Exec(graphemes, Exec(graphemes, t, a), b), [c]);
  }

  /** Among the first `n` rows one is repainted with a line that does not fit. */
  ghost predicate Overflows(graphemes: S.Segmenter, prev: seq<Str>, frame: seq<Str>, width: nat, n: nat) {
    exists row: nat :: row < n && !Unchanged(prev, frame, row) && !Fits(Line(frame, row), width, graphemes)
  }

  lemma OverflowsNext(graphemes: S.Segmenter, prev: seq<Str>, frame: seq<Str>, width: nat, n: nat)
    ensures Overflows(graphemes, prev, frame, width, n + 1) <==>
            Overflows(graphemes, prev, frame, width, n) ||
            (!Unchanged(prev, frame, n) && !Fits(Line(frame, n), width, graphemes))
  {
    hide Unchanged, Fits, Line;
    if Overflows(graphemes, prev, frame, width, n + 1) {
      var row: nat :| row < n + 1 && !Unchanged(prev, frame, row) && !Fits(Line(frame, row), width, graphemes);
      assert row < n ==> Overflows(graphemes, prev, frame, width, n);
    }
    if Overflows(graphemes, prev, frame, width, n) {
      var row: nat :| row < n && !Unchanged(prev, frame, row) && !Fits(Line(frame, row), width, graphemes);
      assert row < n + 1;
    }
  }

  lemma {:induction false} RowsPainted(graphemes: S.Segmenter, prev: seq<Str>, frame: seq<Str>, n: nat, t: Terminal)
    requires n <= t.Height()
    ensures var r := ExecAll(graphemes, t, RowsCommands(graphemes, prev, frame, t.width, n));
            && r.width == t.width && |r.rows| == |t.rows|
            && (r.sheared <==> t.sheared || Overflows(graphemes, prev, frame, t.width, n))
            && forall row: nat | row < |t.rows| ::
                 r.rows[row] == if row < n && !Unchanged(prev, frame, row) then PaintedRow(graphemes, frame, t.width, row)
                                else t.rows[row]
    decreases n
  {
    hide Unchanged, Line, RowCommands, PaintedRow, Fits, Exec, Overflows;
    if n == 0 {
      NoOverflow(graphemes, prev, frame, t.width);
    } else {
      RowsPainted(graphemes, prev, frame, n - 1, t);
      var before, last := RowsCommands(graphemes, prev, frame, t.width, n - 1), RowCommands(graphemes, prev, frame, t.width, n - 1);
      var mid := ExecAll(graphemes, t, before);
      RowPainted(graphemes, prev, frame, n - 1, mid);
      ExecConcat(graphemes, t, before, last);
      OverflowsNext(graphemes, prev, frame, t.width, n - 1);
      assert RowsCommands(graphemes, prev, frame, t.width, n) == before + last;
      hide ExecAll, RowsCommands;
    }
  }

  lemma NoOverflow(graphemes: S.Segmenter, prev: seq<Str>, frame: seq<Str>, width: nat)
    ensures !Overflows(graphemes, prev, frame, width, 0)
  {}

  function Painted(graphemes: S.Segmenter, p: Painter, frame: seq<Str>, t: Terminal, cursor: Option<Cursor>): Terminal {
    ExecAll(graphemes, t, PaintCommands(graphemes, p, frame, t.width, t.Height(), cursor))
  }

  // ------------------------------------------------------------------ what is written

  /** The rows that are erased to be written anew, in order. */
  function RowsWritten(cs: seq<Command>): seq<int>
    decreases |cs|
  {
    if |cs| < 2 then []
    else if cs[0].GoTo? && cs[1].EraseLine? then [cs[0].row] + RowsWritten(cs[2..])
    else RowsWritten(cs[1..])
  }

  lemma {:induction false} WrittenTogether(a: seq<Command>, b: seq<Command>)
    requires b != [] ==> !b[0].EraseLine?
    ensures RowsWritten(a + b) == RowsWritten(a) + RowsWritten(b)
    decreases |a|
  {
    var ab := a + b;
    if a == [] {
      assert ab == b;
    } else if |a| >= 2 && a[0].GoTo? && a[1].EraseLine? {
      assert ab[2..] == a[2..] + b;
      WrittenTogether(a[2..], b);
    } else {
      assert ab[1..] == a[1..] + b;
      WrittenTogether(a[1..], b);
    }
  }

  /** Exactly the rows below `n` that differ from the remembered frame, each once, from top to bottom. */
  ghost predicate AreTheChanges(rows: seq<int>, prev: seq<Str>, frame: seq<Str>, n: nat) {
    && (forall row: nat :: row in rows <==> row < n && !(row < |prev| && prev[row] == Line(frame, row)))
    && (forall i | 0 <= i < |rows| :: 0 <= rows[i] < n)
    && forall i, j | 0 <= i < j < |rows| :: rows[i] < rows[j]
  }

  lemma {:induction false} RowsWrittenExactly(graphemes: S.Segmenter, prev: seq<Str>, frame: seq<Str>, width: nat, n: nat)
    ensures AreTheChanges(RowsWritten(RowsCommands(graphemes, prev, frame, width, n)), prev, frame, n)
    decreases n
  {
    hide Clamp, Line, AreTheChanges, RowsWritten;
    if n == 0 {
      NoChanges(prev, frame);
    } else {
      RowsWrittenExactly(graphemes, prev, frame, width, n - 1);
      var before, last := RowsCommands(graphemes, prev, frame, width, n - 1), RowCommands(graphemes, prev, frame, width, n - 1);
      WrittenTogether(before, last);
      if last != [] { RowWritten(last); } else { NothingWritten(last); }
      NextChange(RowsWritten(before), prev, frame, n - 1);
      assert RowsWritten(before) + [] == RowsWritten(before);
    }
  }

  lemma NothingWritten(cs: seq<Command>)
    requires cs == []
    ensures RowsWritten(cs) == []
  {}

  lemma NoChanges(prev: seq<Str>, frame: seq<Str>)
    ensures AreTheChanges(RowsWritten([]), prev, frame, 0)
  {}

  lemma NextChange(rows: seq<int>, prev: seq<Str>, frame: seq<Str>, n: nat)
    requires AreTheChanges(rows, prev, frame, n)
    ensures AreTheChanges(if n < |prev| && prev[n] == Line(frame, n) then rows else rows + [n], prev, frame, n + 1)
  {
    hide Line;
  }

  lemma RowWritten(cs: seq<Command>)
    requires |cs| == 3 && cs[0].GoTo? && cs[1].EraseLine? && cs[2].Text?
    ensures RowsWritten(cs) == [cs[0].row]
  {
    var rest: seq<Command> := cs[2..];
    assert |rest| == 1 && RowsWritten(rest) == [];
  }

  /**
   * A paint is one synchronised update.  It writes a row exactly when the screen was cleared, or the row was not on the
   * remembered frame, or another line was; each such row once, from top to bottom.
   */
  lemma PaintWritesExactly(graphemes: S.Segmenter, p: Painter, frame: seq<Str>, width: nat, height: nat, cursor: Option<Cursor>)
    ensures var cs := PaintCommands(graphemes, p, frame, width, height, cursor);
            var rows := RowsWritten(cs);
            && |cs| >= 2 && cs[0] == BeginSync && cs[|cs| - 1] == EndSync
            && (forall row: nat :: row in rows <==>
                  row < height && (Clears(p, width, height) || row >= |p.frame| || p.frame[row] != Line(Bottom(frame, height), row)))
            && forall i, j | 0 <= i < j < |rows| :: rows[i] < rows[j]
  {
    hide Clamp, Line, Bottom, RowsCommands, Clears;
    var clears := Clears(p, width, height);
    var opening: seq<Command> := [BeginSync] + if clears then [Clear] else [];
    var rows := RowsCommands(graphemes, if clears then [] else p.frame, Bottom(frame, height), width, height);
    var closing := CursorCommands(cursor, height) + [EndSync];
    assert PaintCommands(graphemes, p, frame, width, height, cursor) == opening + (rows + closing);
    RowsWrittenExactly(graphemes, if clears then [] else p.frame, Bottom(frame, height), width, height);
    assert RowsWritten(rows) + [] == RowsWritten(rows) && [] + RowsWritten(rows) == RowsWritten(rows);
    WrittenTogether(rows, closing);
    RowsBegin(graphemes, if clears then [] else p.frame, Bottom(frame, height), width, height);
    WrittenTogether(opening, rows + closing);
    OutsideNothing(clears, cursor, height);
  }

  lemma {:induction false} RowsBegin(graphemes: S.Segmenter, prev: seq<Str>, frame: seq<Str>, width: nat, n: nat)
    ensures var cs := RowsCommands(graphemes, prev, frame, width, n); cs != [] ==> cs[0].GoTo?
    decreases n
  {
    hide Clamp, Line, Unchanged;
    if n > 0 { RowsBegin(graphemes, prev, frame, width, n - 1); }
  }

  lemma OutsideNothing(clears: bool, cursor: Option<Cursor>, height: nat)
    ensures RowsWritten([BeginSync] + if clears then [Clear] else []) == []
    ensures RowsWritten(CursorCommands(cursor, height) + [EndSync]) == []
  {
    var none: seq<Command> := [];
    assert [BeginSync] + none == [BeginSync] && none + [EndSync] == [EndSync];
    assert ([BeginSync] + [Clear])[1..] == [Clear];
    if cursor.Some? {
      var go := GoTo(Min(cursor.value.row, height - 1), cursor.value.col);
      assert ([go] + [EndSync])[1..] == [EndSync];
    }
  }

  /** What a screen should show, row by row: of a frame that is too tall the last rows, of one too short all, and blanks. */
  lemma ShownRows(graphemes: S.Segmenter, frame: seq<Str>, width: nat, height: nat, row: nat)
    requires row < height
    ensures Shown(graphemes, frame, width, height)[row] ==
            if |frame| >= height then Clamp(frame[|frame| - height + row], width, graphemes)
            else if row < |frame| then Clamp(frame[row], width, graphemes)
            else Clamp([], width, graphemes)
  {
    hide Clamp;
  }

  /** After a paint the cursor stands where it was asked for, or in the last row if that is below the screen. */
  lemma CursorEnds(graphemes: S.Segmenter, p: Painter, frame: seq<Str>, t: Terminal, cursor: Cursor)
    requires t.Height() > 0
    ensures var r := Painted(graphemes, p, frame, t, Some(cursor));
            r.col == cursor.col && r.row == if cursor.row < t.Height() then cursor.row else t.Height() - 1
  {
    hide RowsCommands, Bottom, Clears;
    var clears := Clears(p, t.width, t.Height());
    var opening: seq<Command> := [BeginSync] + if clears then [Clear] else [];
    var rows := RowsCommands(graphemes, if clears then [] else p.frame, Bottom(frame, t.Height()), t.width, t.Height());
    var go := GoTo(Min(cursor.row, t.Height() - 1), cursor.col);
    var before := opening + rows;
    assert PaintCommands(graphemes, p, frame, t.width, t.Height(), Some(cursor)) == before + [go, EndSync];
    ExecConcat(graphemes, t, before, [go, EndSync]);
    var mid := ExecAll(graphemes, t, before);
    HeightStays(graphemes, t, before);
    hide Exec;
    var none: seq<Command> := [];
    assert [go, EndSync][1..] == [EndSync] && [EndSync][1..] == none;
    assert ExecAll(graphemes, Exec(graphemes, mid, go), [EndSync]) == Exec(graphemes, Exec(graphemes, mid, go), EndSync);
    CursorMoves(graphemes, mid, go);
  }

  lemma CursorMoves(graphemes: S.Segmenter, t: Terminal, go: Command)
    requires go.GoTo?
    ensures var r := Exec(graphemes, Exec(graphemes, t, go), EndSync);
            r.row == Max(0, Min(go.row, |t.rows| - 1)) && r.col == go.col
  {}

  lemma {:induction false} HeightStays(graphemes: S.Segmenter, t: Terminal, cs: seq<Command>)
    ensures |ExecAll(graphemes, t, cs).rows| == |t.rows|
    decreases |cs|
  {
    if cs != [] {
      assert |Exec(graphemes, t, cs[0]).rows| == |t.rows|;
      HeightStays(graphemes, Exec(graphemes, t, cs[0]), cs[1..]);
    }
  }

  // ------------------------------------------------------------------ what is left on the screen

  /** What painting does to a screen, row by row; it shears exactly when some repainted line does not fit. */
  lemma PaintResult(graphemes: S.Segmenter, p: Painter, frame: seq<Str>, t: Terminal, cursor: Option<Cursor>)
    ensures var r, bottom := Painted(graphemes, p, frame, t, cursor), Bottom(frame, t.Height());
            var clears := Clears(p, t.width, t.Height());
            && r.width == t.width && |r.rows| == |t.rows|
            && (r.sheared <==> (t.sheared && !clears) ||
                               Overflows(graphemes, if clears then [] else p.frame, bottom, t.width, t.Height()))
            && forall row: nat | row < |t.rows| ::
                 r.rows[row] == if clears || !Unchanged(p.frame, bottom, row) then PaintedRow(graphemes, bottom, t.width, row)
                                else t.rows[row]
  {
    hide Unchanged, Line, RowsCommands, Bottom, ExecAll, PaintedRow, Overflows;
    var clears := Clears(p, t.width, t.Height());
    var bottom, prev := Bottom(frame, t.Height()), if clears then [] else p.frame;
    var opening := [BeginSync] + if clears then [Clear] else [];
    var rows, closing := RowsCommands(graphemes, prev, bottom, t.width, t.Height()), CursorCommands(cursor, t.Height()) + [EndSync];
    assert PaintCommands(graphemes, p, frame, t.width, t.Height(), cursor) == opening + (rows + closing);
    var t1 := if clears then Exec(graphemes, t, Clear) else t;
    OpeningRuns(graphemes, t, clears);
    ExecConcat(graphemes, t, opening, rows + closing);
    ExecConcat(graphemes, t1, rows, closing);
    RowsPainted(graphemes, prev, bottom, t.Height(), t1);
    ClosingKeeps(graphemes, ExecAll(graphemes, t1, rows), cursor);
    NothingUnchanged(bottom);
  }

  lemma NothingUnchanged(frame: seq<Str>)
    ensures forall row: nat :: !Unchanged([], frame, row)
  {}

  lemma OpeningRuns(graphemes: S.Segmenter, t: Terminal, clears: bool)
    ensures ExecAll(graphemes, t, [BeginSync] + if clears then [Clear] else []) == if clears then Exec(graphemes, t, Clear) else t
  {
    var none: seq<Command> := [];
    if clears {
      assert [BeginSync] + [Clear] == [BeginSync, Clear];
      assert [BeginSync, Clear][1..] == [Clear] && [Clear][1..] == none;
      assert ExecAll(graphemes, t, [Clear]) == Exec(graphemes, t, Clear);
    } else {
      assert [BeginSync] + none == [BeginSync] && [BeginSync][1..] == none;
    }
  }

  lemma ClosingKeeps(graphemes: S.Segmenter, t: Terminal, cursor: Option<Cursor>)
    ensures var r := ExecAll(graphemes, t, CursorCommands(cursor, t.Height()) + [EndSync]);
            r.rows == t.rows && r.width == t.width && r.sheared == t.sheared
  {
    var none: seq<Command> := [];
    assert [EndSync][1..] == none;
    if cursor.Some? {
      var go := GoTo(Min(cursor.value.row, t.Height() - 1), cursor.value.col);
      assert [go] + [EndSync] == [go, EndSync] && [go, EndSync][1..] == [EndSync];
      assert ExecAll(graphemes, Exec(graphemes, t, go), [EndSync]) == Exec(graphemes, t, go);
    } else {
      assert none + [EndSync] == [EndSync];
    }
  }

  /** Every line a frame shows on a screen of this size fits. */
  ghost predicate FrameFits(graphemes: S.Segmenter, frame: seq<Str>, width: nat, height: nat) {
    forall row: nat | row < height :: Fits(Line(Bottom(frame, height), row), width, graphemes)
  }

  /** A line that does not fit is no empty line. */
  lemma UnfitShowsNothing(graphemes: S.Segmenter, line: Str, width: nat)
    requires !Fits(line, width, graphemes)
    ensures Clamp(line, width, graphemes) != []
  {
    C.VisibleWidthOfNothing(graphemes);
  }

  /** After painting, the screen shows the frame exactly when every repainted line fits, and the screen was cleared or the
      rows left alone were right already. */
  lemma PaintShowsExactlyWhen(graphemes: S.Segmenter, p: Painter, frame: seq<Str>, t: Terminal, cursor: Option<Cursor>)
    ensures var clears, bottom := Clears(p, t.width, t.Height()), Bottom(frame, t.Height());
            Painted(graphemes, p, frame, t, cursor).rows == Shown(graphemes, frame, t.width, t.Height()) <==>
            && !Overflows(graphemes, if clears then [] else p.frame, bottom, t.width, t.Height())
            && (clears || SkippedRowsHold(graphemes, p.frame, bottom, t))
  {
    hide Unchanged, Line, PaintCommands, ExecAll, Bottom, Clears, Painted, Clamp, Fits;
    PaintResult(graphemes, p, frame, t, cursor);
    NothingUnchanged(Bottom(frame, t.Height()));
    var r, bottom := Painted(graphemes, p, frame, t, cursor), Bottom(frame, t.Height());
    var shown, clears := Shown(graphemes, frame, t.width, t.Height()), Clears(p, t.width, t.Height());
    assert forall row: nat | row < t.Height() :: shown[row] == Clamp(Line(bottom, row), t.width, graphemes);
    if r.rows == shown {
      forall row: nat | row < t.Height() && (clears || !Unchanged(p.frame, bottom, row))
        ensures Fits(Line(bottom, row), t.width, graphemes)
      {
        assert r.rows[row] == shown[row];
        if !Fits(Line(bottom, row), t.width, graphemes) {
          UnfitShowsNothing(graphemes, Line(bottom, row), t.width);
        }
      }
      forall row: nat | row < t.Height() && !clears && Unchanged(p.frame, bottom, row)
        ensures t.rows[row] == Clamp(Line(bottom, row), t.width, graphemes)
      {
        assert r.rows[row] == shown[row];
      }
    }
  }

  // ------------------------------------------------------------------ which lines fit

  /**
   * A line whose tabs make no code fits exactly when the columns of what is kept of it, and three more for each tab in
   * there, are within the width: the painter's cut counts a tab as nothing.
   */
  lemma FitsExactlyWhen(graphemes: S.Segmenter, line: Str, width: nat, j: nat)
    requires S.IsSegmenter(graphemes) && C.AsciiIsPlain(graphemes) && C.IsPrefixStable(graphemes)
    requires L.TabsAndCodesBetween(line, graphemes) && Seams.TabsStayOut(line)
    requires L.CutsAt(S.Spans(line, 0, graphemes), width, j)
    ensures var gs := C.GlyphsOf(line, S.Spans(line, 0, graphemes), j);
            Fits(line, width, graphemes) <==> S.Column(S.Spans(line, 0, graphemes), j) + 3 * L.TabsIn(gs, |gs|) <= width
  {
    hide S.IsSegmenter, C.AsciiIsPlain, C.IsPrefixStable, C.VisibleWidth, C.SliceByColumn, L.TabsAndCodesBetween,
         Seams.TabsStayOut, L.CutsAt, S.Spans, C.GlyphsOf, S.Column, L.TabsIn;
    L.CutBounds(S.Spans(line, 0, graphemes), width, j);
    if C.VisibleWidth(line, graphemes) > width {
      L.CutFitsExactlyWhen(line, graphemes, width, j);
    } else {
      L.UncutFits(line, graphemes, width, j);
    }
  }

  /** The lines of a frame that hold no tabs, and whose codes stand between their graphemes, all fit. */
  lemma LinesWithoutTabsFit(graphemes: S.Segmenter, frame: seq<Str>, width: nat, height: nat)
    requires S.IsSegmenter(graphemes) && C.AsciiIsPlain(graphemes) && C.IsPrefixStable(graphemes)
    requires forall line | line in frame :: C.TAB !in line && C.CodesBetweenGraphemes(line, graphemes)
    ensures FrameFits(graphemes, frame, width, height)
  {
    hide S.IsSegmenter, C.AsciiIsPlain, C.IsPrefixStable, C.CodesBetweenGraphemes, C.VisibleWidth;
    forall row: nat | row < height
      ensures Fits(Line(Bottom(frame, height), row), width, graphemes)
    {
      var line := Line(Bottom(frame, height), row);
      if row < |Bottom(frame, height)| {
        assert line in frame;
        C.SlicesFit(line, width, graphemes);
      } else {
        C.VisibleWidthOfNothing(graphemes);
      }
    }
  }

  /** `n` tabs before a text that fills the screen: the painter's own cut keeps them, and the line shears the screen
      exactly when there is a tab. */
  lemma TabsShear(graphemes: S.Segmenter, n: nat, text: Str, p: Painter, t: Terminal, cursor: Option<Cursor>)
    requires S.IsSegmenter(graphemes) && C.AsciiIsPlain(graphemes) && text != [] && C.IsPrintableAscii(text)
    requires var line := C.Copies(C.TAB, n) + text; C.AreTabsThenOnes(graphemes(line), n, text)
    requires t.width == |text| && t.Height() == 1 && Clears(p, t.width, 1)
    ensures Painted(graphemes, p, [C.Copies(C.TAB, n) + text], t, cursor).sheared <==> n > 0
  {
    hide Painted, C.VisibleWidth, C.SliceByColumn, S.IsSegmenter, C.AsciiIsPlain;
    var line := C.Copies(C.TAB, n) + text;
    C.TabsAreKept(n, text, graphemes);
    PaintResult(graphemes, p, [line], t, cursor);
    assert Bottom([line], 1) == [line] && Line([line], 0) == line;
    assert Fits(line, t.width, graphemes) <==> n == 0;
    OverflowsNext(graphemes, [], [line], t.width, 0);
    NoOverflow(graphemes, [], [line], t.width);
  }

  // ------------------------------------------------------------------ sessions

  /** The screen shows what the painter remembers, unless the painter is going to clear it anyway. */
  ghost predicate InStep(graphemes: S.Segmenter, p: Painter, t: Terminal) {
    && !t.sheared && |p.frame| <= p.height
    && (!Clears(p, t.width, t.Height()) ==>
          t.rows == Shown(graphemes, p.frame, t.width, t.Height()) && FrameFits(graphemes, p.frame, t.width, t.Height()))
  }

  lemma InStepMeansSkippedRowsHold(graphemes: S.Segmenter, p: Painter, frame: seq<Str>, t: Terminal)
    requires InStep(graphemes, p, t) && !Clears(p, t.width, t.Height())
    ensures SkippedRowsHold(graphemes, p.frame, frame, t)
    ensures forall row: nat | row < t.Height() && Unchanged(p.frame, frame, row) :: Fits(Line(frame, row), t.width, graphemes)
  {
    hide Clamp, Fits;
    forall row: nat | row < t.Height() && Unchanged(p.frame, frame, row)
      ensures t.rows[row] == Clamp(Line(frame, row), t.width, graphemes) && Fits(Line(frame, row), t.width, graphemes)
    {
      assert t.rows[row] == Shown(graphemes, p.frame, t.width, t.Height())[row];
      assert Line(Bottom(p.frame, t.Height()), row) == Line(frame, row);
    }
  }

  /** In step, a paint overflows exactly when the frame does not fit. */
  lemma OverflowsExactlyWhen(graphemes: S.Segmenter, p: Painter, frame: seq<Str>, t: Terminal)
    requires InStep(graphemes, p, t)
    ensures var clears := Clears(p, t.width, t.Height());
            Overflows(graphemes, if clears then [] else p.frame, Bottom(frame, t.Height()), t.width, t.Height()) <==>
            !FrameFits(graphemes, frame, t.width, t.Height())
  {
    hide Unchanged, Line, Fits, InStep, Clears;
    NothingUnchanged(Bottom(frame, t.Height()));
    if !Clears(p, t.width, t.Height()) {
      InStepMeansSkippedRowsHold(graphemes, p, Bottom(frame, t.Height()), t);
    }
  }

  /** The row diff refines a full repaint: in step, both leave the same screen, which shows the frame, unsheared, exactly
      when the frame fits. */
  lemma IncrementalRefinesFull(graphemes: S.Segmenter, p: Painter, frame: seq<Str>, t: Terminal, cursor: Option<Cursor>)
    requires InStep(graphemes, p, t)
    ensures var r, full := Painted(graphemes, p, frame, t, cursor), Painted(graphemes, p.(frame := []), frame, t, cursor);
            && r.rows == full.rows && r.sheared == full.sheared
            && (r.rows == Shown(graphemes, frame, t.width, t.Height()) <==> FrameFits(graphemes, frame, t.width, t.Height()))
            && (!r.sheared <==> FrameFits(graphemes, frame, t.width, t.Height()))
            && (FrameFits(graphemes, frame, t.width, t.Height()) ==>
                  InStep(graphemes, Painter(Bottom(frame, t.Height()), t.width, t.Height()), r))
  {
    hide PaintCommands, ExecAll, Painted, Shown, SkippedRowsHold, Overflows, Unchanged, Line, FrameFits, PaintedRow;
    var empty := p.(frame := []);
    assert InStep(graphemes, empty, t) && Clears(empty, t.width, t.Height());
    OverflowsExactlyWhen(graphemes, p, frame, t);
    OverflowsExactlyWhen(graphemes, empty, frame, t);
    PaintResult(graphemes, p, frame, t, cursor);
    PaintResult(graphemes, empty, frame, t, cursor);
    PaintShowsExactlyWhen(graphemes, p, frame, t, cursor);
    PaintShowsExactlyWhen(graphemes, empty, frame, t, cursor);
    ShownBottom(graphemes, frame, t.width, t.Height());
    if !Clears(p, t.width, t.Height()) {
      InStepMeansSkippedRowsHold(graphemes, p, Bottom(frame, t.Height()), t);
      SkippedRowsAsPainted(graphemes, p.frame, Bottom(frame, t.Height()), t);
    }
    assert Painted(graphemes, p, frame, t, cursor).rows == Painted(graphemes, empty, frame, t, cursor).rows;
  }

  lemma SkippedRowsAsPainted(graphemes: S.Segmenter, prev: seq<Str>, frame: seq<Str>, t: Terminal)
    requires SkippedRowsHold(graphemes, prev, frame, t)
    requires forall row: nat | row < t.Height() && Unchanged(prev, frame, row) :: Fits(Line(frame, row), t.width, graphemes)
    ensures forall row: nat | row < t.Height() && Unchanged(prev, frame, row) ::
              t.rows[row] == PaintedRow(graphemes, frame, t.width, row)
  {
    hide Clamp, Fits, Unchanged, Line;
  }

  lemma ShownBottom(graphemes: S.Segmenter, frame: seq<Str>, width: nat, height: nat)
    ensures Shown(graphemes, Bottom(frame, height), width, height) == Shown(graphemes, frame, width, height)
    ensures FrameFits(graphemes, Bottom(frame, height), width, height) <==> FrameFits(graphemes, frame, width, height)
  {
    hide Clamp, Fits;
    assert Bottom(Bottom(frame, height), height) == Bottom(frame, height);
  }

  /**
   * Whatever happened to the screen behind the painter's back, the next paint is right exactly when the frame fits and
   * the painter clears or repaints every row.
   */
  lemma SurvivesDisturbanceExactlyWhen(graphemes: S.Segmenter, p: Painter, frame: seq<Str>, t: Terminal,
                                       cursor: Option<Cursor>)
    ensures var clears, bottom := Clears(p, t.width, t.Height()), Bottom(frame, t.Height());
            (forall rows: seq<Str> | |rows| == t.Height() ::
               Painted(graphemes, p, frame, t.(rows := rows), cursor).rows == Shown(graphemes, frame, t.width, t.Height())) <==>
            && FrameFits(graphemes, frame, t.width, t.Height())
            && (clears || forall row: nat | row < t.Height() :: !Unchanged(p.frame, bottom, row))
  {
    hide Unchanged, Line, PaintCommands, ExecAll, Bottom, Clears, Painted, Shown, Clamp, Fits;
    var bottom, clears := Bottom(frame, t.Height()), Clears(p, t.width, t.Height());
    NothingUnchanged(bottom);
    forall rows: seq<Str> | |rows| == t.Height()
      ensures Painted(graphemes, p, frame, t.(rows := rows), cursor).rows == Shown(graphemes, frame, t.width, t.Height()) <==>
              && !Overflows(graphemes, if clears then [] else p.frame, bottom, t.width, t.Height())
              && (clears || SkippedRowsHold(graphemes, p.frame, bottom, t.(rows := rows)))
    {
      PaintShowsExactlyWhen(graphemes, p, frame, t.(rows := rows), cursor);
    }
    if row: nat :| !clears && row < t.Height() && Unchanged(p.frame, bottom, row) {
      var right := Clamp(Line(bottom, row), t.width, graphemes);
      var wrong: Str := if right == [] then [0x78] else [];
      var rows := t.rows[row := wrong];
      assert |rows| == t.Height();
      assert !SkippedRowsHold(graphemes, p.frame, bottom, t.(rows := rows)) by {
        assert t.(rows := rows).rows[row] != right;
      }
    } else {
      assert |t.rows| == t.Height() && t.(rows := t.rows) == t;
    }
  }

  datatype Event = Resized(width: nat, rows: seq<Str>) | WasReset | PaintRequested(frame: seq<Str>, cursor: Option<Cursor>)

  datatype Session = Session(terminal: Terminal, painter: Painter)

  /** A resize may leave anything on the screen, and the painter is not told. */
  function Step(graphemes: S.Segmenter, s: Session, e: Event): Session {
    var t := s.terminal;
    match e
    case Resized(width, rows) => s.(terminal := Terminal(width, rows, 0, 0, false))
    case WasReset => s.(painter := s.painter.(frame := []))
    case PaintRequested(frame, cursor) =>
      Session(Painted(graphemes, s.painter, frame, t, cursor), Painter(Bottom(frame, t.Height()), t.width, t.Height()))
  }

  function Run(graphemes: S.Segmenter, s: Session, es: seq<Event>): Session
    decreases |es|
  {
    if es == [] then s else Run(graphemes, Step(graphemes, s, es[0]), es[1..])
  }

  /** No resize brings back the size of the last paint, unless the painter was reset since, and every frame fits. */
  ghost predicate Tame(graphemes: S.Segmenter, s: Session, es: seq<Event>)
    decreases |es|
  {
    es == [] || (IsTame(graphemes, s, es[0]) && Tame(graphemes, Step(graphemes, s, es[0]), es[1..]))
  }

  ghost predicate IsTame(graphemes: S.Segmenter, s: Session, e: Event) {
    match e
    case Resized(width, rows) => Clears(s.painter, width, |rows|)
    case WasReset => true
    case PaintRequested(frame, _) => FrameFits(graphemes, frame, s.terminal.width, s.terminal.Height())
  }

  /** Along every tame session, whatever was painted, resized and reset before, a paint makes the screen show its frame,
      unsheared, exactly when the frame fits. */
  lemma {:induction false} ScreenShowsTheFrame(graphemes: S.Segmenter, s: Session, es: seq<Event>, frame: seq<Str>,
                                               cursor: Option<Cursor>)
    requires InStep(graphemes, s.painter, s.terminal) && Tame(graphemes, s, es)
    ensures var t := Run(graphemes, s, es).terminal;
            var after := Step(graphemes, Run(graphemes, s, es), PaintRequested(frame, cursor)).terminal;
            && (after.rows == Shown(graphemes, frame, t.width, t.Height()) <==> FrameFits(graphemes, frame, t.width, t.Height()))
            && (!after.sheared <==> FrameFits(graphemes, frame, t.width, t.Height()))
    decreases |es|
  {
    hide InStep, Painted, Shown, Clears, FrameFits;
    if es == [] {
      IncrementalRefinesFull(graphemes, s.painter, frame, s.terminal, cursor);
    } else {
      StepKeepsInStep(graphemes, s, es[0]);
      ScreenShowsTheFrame(graphemes, Step(graphemes, s, es[0]), es[1..], frame, cursor);
    }
  }

  lemma StepKeepsInStep(graphemes: S.Segmenter, s: Session, e: Event)
    requires InStep(graphemes, s.painter, s.terminal) && IsTame(graphemes, s, e)
    ensures InStep(graphemes, Step(graphemes, s, e).painter, Step(graphemes, s, e).terminal)
  {
    hide Painted, Shown, FrameFits;
    if e.PaintRequested? {
      IncrementalRefinesFull(graphemes, s.painter, e.frame, s.terminal, e.cursor);
    }
  }

  /** Tameness is needed: a full frame painted again after the terminal was resized away and back stays unpainted. */
  lemma ResizedAwayAndBack(graphemes: S.Segmenter, s: Session, frame: seq<Str>, away: nat, rows: seq<Str>,
                           cursor: Option<Cursor>)
    requires 0 < s.terminal.Height() == |frame| == |rows|
    ensures var width := s.terminal.width;
            var es := [PaintRequested(frame, cursor), Resized(away, rows), Resized(width, rows), PaintRequested(frame, cursor)];
            Run(graphemes, s, es).terminal.rows == rows
  {
    hide Painted, Shown, PaintCommands;
    var width, paint := s.terminal.width, PaintRequested(frame, cursor);
    var s1 := Step(graphemes, s, paint);
    RunFour(graphemes, s, paint, Resized(away, rows), Resized(width, rows), paint);
    StalePaint(graphemes, s1.painter, frame, Terminal(width, rows, 0, 0, false), cursor);
  }

  lemma RunFour(graphemes: S.Segmenter, s: Session, a: Event, b: Event, c: Event, d: Event)
    ensures Run(graphemes, s, [a, b, c, d]) == Step(graphemes, Step(graphemes, Step(graphemes, Step(graphemes, s, a), b), c), d)
  {
    hide Step, Run;
    RunHead(graphemes, s, a, [b, c, d]);
    RunHead(graphemes, Step(graphemes, s, a), b, [c, d]);
    RunHead(graphemes, Step(graphemes, Step(graphemes, s, a), b), c, [d]);
    RunHead(graphemes, Step(graphemes, Step(graphemes, Step(graphemes, s, a), b), c), d, []);
    RunNothing(graphemes, Step(graphemes, Step(graphemes, Step(graphemes, Step(graphemes, s, a), b), c), d));
    assert [a, b, c, d] == [a] + [b, c, d] && [b, c, d] == [b] + [c, d] && [c, d] == [c] + [d] && [d] == [d] + [];
  }

  lemma RunHead(graphemes: S.Segmenter, s: Session, e: Event, es: seq<Event>)
    ensures Run(graphemes, s, [e] + es) == Run(graphemes, Step(graphemes, s, e), es)
  {
    hide Step;
    assert ([e] + es)[1..] == es;
  }

  lemma RunNothing(graphemes: S.Segmenter, s: Session)
    ensures Run(graphemes, s, []) == s
  {}

  lemma StalePaint(graphemes: S.Segmenter, p: Painter, frame: seq<Str>, t: Terminal, cursor: Option<Cursor>)
    requires 0 < t.Height() == |frame|
    requires p == Painter(Bottom(frame, t.Height()), t.width, t.Height())
    ensures Painted(graphemes, p, frame, t, cursor).rows == t.rows
  {
    hide Painted, PaintedRow;
    PaintResult(graphemes, p, frame, t, cursor);
    assert Bottom(frame, t.Height()) == frame && p.frame == frame;
  }

  // ------------------------------------------------------------------ the viewport

  class FullscreenViewport {
    var scrollTop: nat
    var following: bool
    var lastMaxScroll: nat
    var lastWindowHeight: nat
    var lastTranscript: seq<Str>
    var prevFrame: seq<Str>
    var prevWidth: nat
    var prevHeight: nat

    function View(): Scroll
      reads this
    {
      Scroll(scrollTop, following, lastMaxScroll)
    }

    function Remembered(): Painter
      reads this
    {
      Painter(prevFrame, prevWidth, prevHeight)
    }

    ghost predicate Valid()
      reads this
    {
      View().Sound() && lastMaxScroll == MaxScroll(|lastTranscript|, lastWindowHeight) && |prevFrame| <= prevHeight
    }

    constructor ()
      ensures Valid() && View() == Scroll(0, true, 0) && Remembered() == Painter([], 0, 0)
    {
      scrollTop, following, lastMaxScroll := 0, true, 0;
      lastWindowHeight, lastTranscript := 0, [];
      prevFrame, prevWidth, prevHeight := [], 0, 0;
    }

    /**
     * `decorate` stands for the image placeholder and the selection highlight of a line.  A window that follows shows the
     * last line on its last row; one that does not stays where it is while lines are appended.
     */
    method ComposeFrame(transcript: seq<Str>, dock: seq<Str>, height: nat, decorate: (nat, Str) -> Str)
      returns (frame: seq<Str>)
      requires Valid()
      modifies `scrollTop, `lastMaxScroll, `lastWindowHeight, `lastTranscript
      ensures Valid()
      ensures lastWindowHeight == height - ClippedFullscreenDockHeight(|dock|, height)
      ensures View() == Composed(old(View()), |transcript|, lastWindowHeight)
      ensures IsFrame(frame, transcript, dock, height, scrollTop, decorate)
      ensures lastTranscript == transcript
      ensures following && 0 < lastWindowHeight <= |transcript| ==>
                frame[lastWindowHeight - 1] == decorate(|transcript| - 1, transcript[|transcript| - 1])
      ensures !following && old(lastTranscript) <= transcript && lastWindowHeight <= old(lastWindowHeight) ==>
                scrollTop == old(scrollTop)
    {
      var dockLines := dock;
      var dockHeight := ClippedFullscreenDockHeight(|dockLines|, height);
      if |dockLines| > dockHeight {
        dockLines := dockLines[|dockLines| - dockHeight..];
      }
      assert dockLines == dock[|dock| - dockHeight..];
      var windowHeight := height - |dockLines|;
      hide IsFrame, WindowRow, ClippedFullscreenDockHeight;
      PlaceWindow(transcript, windowHeight);
      var window := ComposeWindow(transcript, windowHeight, decorate);
      frame := window + dockLines;
      FrameComposed(window, dockLines, transcript, dock, height, scrollTop, decorate);
      if following && 0 < windowHeight <= |transcript| { LastRow(transcript, windowHeight, decorate); }
    }

    /** A window that follows stands at the end; one that does not stays where it is, if it can. */
    method PlaceWindow(transcript: seq<Str>, windowHeight: nat)
      requires Valid()
      modifies `scrollTop, `lastMaxScroll, `lastWindowHeight, `lastTranscript
      ensures Valid() && lastWindowHeight == windowHeight && lastTranscript == transcript
      ensures View() == Composed(old(View()), |transcript|, windowHeight)
      ensures scrollTop <= MaxScroll(|transcript|, windowHeight)
      ensures following ==> scrollTop == MaxScroll(|transcript|, windowHeight)
      ensures !following && old(lastTranscript) <= transcript && windowHeight <= old(lastWindowHeight) ==>
                scrollTop == old(scrollTop)
    {
      var maxScroll := Max(0, |transcript| - windowHeight);
      if following {
        scrollTop := maxScroll;
      } else {
        scrollTop := Max(0, Min(scrollTop, maxScroll));
      }
      lastMaxScroll, lastWindowHeight, lastTranscript := maxScroll, windowHeight, transcript;
    }

    /** The two loops over the window: decorated lines, then empty rows. */
    method ComposeWindow(transcript: seq<Str>, windowHeight: nat, decorate: (nat, Str) -> Str) returns (window: seq<Str>)
      requires scrollTop <= MaxScroll(|transcript|, windowHeight)
      ensures |window| == windowHeight
      ensures forall k: nat | k < windowHeight :: window[k] == WindowRow(transcript, scrollTop, decorate, k)
    {
      window := transcript[scrollTop..Min(|transcript|, scrollTop + windowHeight)];
      var shown := |window|;
      var i := 0;
      while i < |window|
        invariant 0 <= i <= |window| == shown
        invariant forall k | 0 <= k < shown :: window[k] == if k < i then decorate(scrollTop + k, transcript[scrollTop + k])
                                                            else transcript[scrollTop + k]
      {
        window := window[i := decorate(scrollTop + i, window[i])];
        i := i + 1;
      }
      while |window| < windowHeight
        invariant shown <= |window| <= windowHeight
        invariant forall k: nat | k < |window| :: window[k] == WindowRow(transcript, scrollTop, decorate, k)
      {
        window := window + [[]];
      }
    }

    /** What is written is exactly the row diff, and the painter remembers the frame for the next one. */
    method Paint(graphemes: S.Segmenter, fullFrame: seq<Str>, width: nat, height: nat, cursorPos: Option<Cursor>)
      returns (buffer: seq<Command>)
      requires Valid() && S.IsSegmenter(graphemes)
      modifies `prevFrame, `prevWidth, `prevHeight
      ensures Valid()
      ensures buffer == PaintCommands(graphemes, old(Remembered()), fullFrame, width, height, cursorPos)
      ensures Remembered() == Painter(Bottom(fullFrame, height), width, height)
    {
      hide RowsCommands;
      var frame := fullFrame;
      if |frame| > height {
        frame := frame[|frame| - height..];
      }
      buffer := [BeginSync];
      if width != prevWidth || height != prevHeight || |prevFrame| == 0 {
        buffer := buffer + [Clear];
        prevFrame := [];
      }
      var rows := PaintRows(graphemes, frame, width, height);
      buffer := buffer + rows;
      if cursorPos.Some? {
        buffer := buffer + [GoTo(Min(cursorPos.value.row, height - 1), cursorPos.value.col)];
      }
      buffer := buffer + [EndSync];
      prevFrame, prevWidth, prevHeight := frame, width, height;
    }

    /** The loop over the rows. */
    method PaintRows(graphemes: S.Segmenter, frame: seq<Str>, width: nat, height: nat) returns (buffer: seq<Command>)
      requires S.IsSegmenter(graphemes)
      ensures buffer == RowsCommands(graphemes, prevFrame, frame, width, height)
    {
      hide S.IsSegmenter, RowCommands;
      buffer := [];
      var row := 0;
      while row < height
        invariant 0 <= row <= height
        invariant buffer == RowsCommands(graphemes, prevFrame, frame, width, row)
      {
        var commands := PaintRow(graphemes, frame, width, row);
        buffer := buffer + commands;
        row := row + 1;
      }
    }

    /** One row: nothing if it is as it was, else the line cut to the width. */
    method PaintRow(graphemes: S.Segmenter, frame: seq<Str>, width: nat, row: nat) returns (commands: seq<Command>)
      requires S.IsSegmenter(graphemes)
      ensures commands == RowCommands(graphemes, prevFrame, frame, width, row)
    {
      hide S.IsSegmenter, C.VisibleWidth, C.SliceByColumn;
      var line := if row < |frame| then frame[row] else [];
      if row < |prevFrame| && prevFrame[row] == line { return []; }
      var text := line;
      if C.VisibleWidth(line, graphemes) > width {
        var cut, _ := C.SliceWithWidth(line, 0, width, true, graphemes);
        text := cut;
      }
      commands := [GoTo(row, 0), EraseLine, Text(text)];
    }

    method Reset()
      requires Valid()
      modifies `prevFrame
      ensures Valid() && Remembered() == old(Remembered()).(frame := [])
    {
      prevFrame := [];
    }

    method ScrollBy(delta: int)
      requires Valid()
      modifies `scrollTop, `following
      ensures Valid() && View() == ScrolledBy(old(View()), delta)
    {
      var base := if following then lastMaxScroll else scrollTop;
      scrollTop := Max(0, Min(base + delta, lastMaxScroll));
      following := scrollTop >= lastMaxScroll;
    }

    method ScrollToTop()
      requires Valid()
      modifies `scrollTop, `following
      ensures Valid() && View() == ScrolledToTop(old(View()))
    {
      scrollTop := 0;
      following := lastMaxScroll == 0;
    }

    method ScrollToBottom()
      requires Valid()
      modifies `scrollTop, `following
      ensures Valid() && View() == ScrolledToBottom(old(View()))
    {
      scrollTop := lastMaxScroll;
      following := true;
    }
  }
}
