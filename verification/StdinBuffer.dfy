/**
 * The terminal-input buffer: an incremental factoriser of escape sequences with
 * bracketed-paste modes (packages/tui/src/stdin-buffer.ts).
 */
module StdinBuffer {
  import opened Strings

  /** ESC [ 2 0 0 ~ and ESC [ 2 0 1 ~ */
  const PASTE_START: Str := [ESC, 0x5b, 0x32, 0x30, 0x30, 0x7e]
  const PASTE_END: Str := [ESC, 0x5b, 0x32, 0x30, 0x31, 0x7e]

  datatype Status = Complete | Incomplete | NotEscape

  // ------------------------------------------------------------------ completeness

  function SequenceStatus(data: Str): Status {
    if |data| == 0 || data[0] != ESC then NotEscape
    else if |data| == 1 then Incomplete
    else if data[1] == 0x5b then                       // CSI
      if |data| >= 3 && data[2] == 0x4d then           // old-style mouse: ESC [ M and three units
        if |data| >= 6 then Complete else Incomplete
      else CsiStatus(data)
    else if data[1] == 0x5d then                       // OSC
      if EndsWith(data, [ESC, BACKSLASH]) || EndsWith(data, [BEL]) then Complete else Incomplete
    else if data[1] == 0x50 || data[1] == 0x5f then    // DCS, APC
      if EndsWith(data, [ESC, BACKSLASH]) then Complete else Incomplete
    else if data[1] == 0x4f then                       // SS3
      if |data| >= 3 then Complete else Incomplete
    else Complete
  }

  function CsiStatus(data: Str): Status
    requires |data| >= 2
  {
    if |data| < 3 then Incomplete
    else
      var payload := data[2..];
      var last := payload[|payload| - 1];
      if 0x40 <= last <= 0x7e && (payload[0] == 0x3c ==> IsMouseReport(payload)) then Complete
      else Incomplete
  }

  /** `<digits;digits;digitsM` or the same ending in `m`. */
  predicate IsMouseReport(payload: Str) {
    && |payload| >= 2
    && payload[0] == 0x3c
    && payload[|payload| - 1] in {0x4d, 0x6d}
    && var parts := Split(payload[1..|payload| - 1], SEMICOLON);
       |parts| == 3 && forall i | 0 <= i < 3 :: parts[i] != [] && AllDigits(parts[i])
  }

  // ------------------------------------------------------------------ factorisation

  datatype Factored = Factored(sequences: seq<Str>, remainder: Str)

  /** The least length, at least `n`, at which a prefix of `s` is complete. */
  function FirstEnd(s: Str, n: nat): (r: Option<nat>)
    ensures r.Some? ==> n <= r.value <= |s| && SequenceStatus(s[..r.value]) == Complete
    ensures forall k | n <= k <= |s| && (r.Some? ==> k < r.value) :: SequenceStatus(s[..k]) != Complete
    decreases |s| - n
  {
    if n > |s| then None
    else if SequenceStatus(s[..n]) == Complete then Some(n)
    else FirstEnd(s, n + 1)
  }

  function Factor(s: Str): Factored {
    if s == [] then Factored([], [])
    else if s[0] != ESC then
      var rest := Factor(s[1..]);
      Factored([s[..1]] + rest.sequences, rest.remainder)
    else
      match FirstEnd(s, 1)
      case None => Factored([], s)
      case Some(n) =>
        var rest := Factor(s[n..]);
        Factored([s[..n]] + rest.sequences, rest.remainder)
  }

  /** One ordinary unit, or an escape sequence none of whose proper prefixes is complete. */
  ghost predicate IsAtom(a: Str) {
    if a != [] && a[0] == ESC then
      SequenceStatus(a) == Complete && forall k | 1 <= k < |a| :: SequenceStatus(a[..k]) != Complete
    else |a| == 1
  }

  /** Text that still waits for more input: an escape sequence no prefix of which is complete. */
  ghost predicate IsUnfinished(r: Str) {
    r == [] || (r[0] == ESC && forall k | 1 <= k <= |r| :: SequenceStatus(r[..k]) != Complete)
  }

  /** `Factor` is the only lossless split of `s` into atoms and an unfinished remainder. */
  lemma {:induction false} FactorIsTheMinimalSplit(s: Str, sequences: seq<Str>, remainder: Str)
    ensures Factor(s) == Factored(sequences, remainder)
       <==> Flatten(sequences) + remainder == s
            && (forall a | a in sequences :: IsAtom(a))
            && IsUnfinished(remainder)
    decreases |s| + |sequences|
  {
    FactorIsASplit(s);
    if Flatten(sequences) + remainder == s && (forall a | a in sequences :: IsAtom(a)) && IsUnfinished(remainder) {
      SplitIsFactor(sequences, remainder);
    }
  }

  lemma FlattenedHead(head: Str, sequences: seq<Str>, remainder: Str)
    ensures Flatten([head] + sequences) + remainder == head + (Flatten(sequences) + remainder)
  {
    assert ([head] + sequences)[1..] == sequences;
    Regroup3(head, Flatten(sequences), remainder);
  }

  lemma {:induction false} FactorIsASplit(s: Str)
    ensures Flatten(Factor(s).sequences) + Factor(s).remainder == s
    ensures forall a | a in Factor(s).sequences :: IsAtom(a)
    ensures IsUnfinished(Factor(s).remainder)
    decreases |s|
  {
    hide SequenceStatus, IsAtom, Factor, FirstEnd;
    if s == [] {
      FactorEmpty();
    } else {
      var n := if s[0] != ESC then Some(1) else FirstEnd(s, 1);
      if n.None? {
        FactorUnfinished(s);
      } else {
        var head, rest := s[..n.value], Factor(s[n.value..]);
        FactorStep(s, n.value);
        FactorIsASplit(s[n.value..]);
        HeadIsAtom(s, n.value);
        FlattenedHead(head, rest.sequences, rest.remainder);
        assert head + s[n.value..] == s;
      }
    }
  }

  lemma HeadIsAtom(s: Str, n: nat)
    requires s != [] && if s[0] != ESC then n == 1 else FirstEnd(s, 1) == Some(n)
    ensures IsAtom(s[..n])
  {
    forall k | 1 <= k < n
      ensures s[..n][..k] == s[..k]
    {}
  }

  lemma {:induction false} SplitIsFactor(sequences: seq<Str>, remainder: Str)
    requires forall a | a in sequences :: IsAtom(a)
    requires IsUnfinished(remainder)
    ensures Factor(Flatten(sequences) + remainder) == Factored(sequences, remainder)
    decreases |sequences|
  {
    hide SequenceStatus, Factor, FirstEnd, IsAtom;
    if sequences == [] {
      assert Flatten(sequences) + remainder == remainder;
      RemainderStays(remainder);
    } else {
      var a, rest := sequences[0], Flatten(sequences[1..]) + remainder;
      assert a in sequences && sequences == [a] + sequences[1..];
      FlattenedHead(a, sequences[1..], remainder);
      SplitIsFactor(sequences[1..], remainder);
      AtomInFront(a, rest);
    }
  }

  lemma RemainderStays(remainder: Str)
    requires IsUnfinished(remainder)
    ensures Factor(remainder) == Factored([], remainder)
  {
    hide SequenceStatus, Factor;
    if remainder == [] {
      FactorEmpty();
    } else {
      FactorUnfinished(remainder);
    }
  }

  lemma AtomInFront(a: Str, rest: Str)
    requires IsAtom(a)
    ensures Factor(a + rest) == Factored([a] + Factor(rest).sequences, Factor(rest).remainder)
  {
    hide SequenceStatus, Factor, FirstEnd;
    var s, n: nat := a + rest, |a|;
    assert s[..n] == a && s[n..] == rest && s[0] == a[0];
    if a[0] == ESC {
      assert forall k | 1 <= k < n :: s[..k] == a[..k];
      FirstEndIs(s, n);
    }
    FactorStep(s, n);
  }

  lemma Regroup(x: Str, ra: Str, a: Str, y: Str, rr: Str, b: Str)
    requires x + ra == a && y + rr == ra + b
    ensures (x + y) + rr == a + b
  {
    assert (x + y) + rr == x + (y + rr) == x + (ra + b) == (x + ra) + b;
  }

  /** Prefix stability: later input never changes what earlier input already decided. */
  lemma {:induction false} FactorConcat(a: Str, b: Str)
    ensures Factor(a + b) ==
            Factored(Factor(a).sequences + Factor(Factor(a).remainder + b).sequences,
                     Factor(Factor(a).remainder + b).remainder)
  {
    FactorIsASplit(a);
    var r := Factor(a).remainder + b;
    FactorIsASplit(r);
    var seqs := Factor(a).sequences + Factor(r).sequences;
    FlattenAppend(Factor(a).sequences, Factor(r).sequences);
    Regroup(Flatten(Factor(a).sequences), Factor(a).remainder, a, Flatten(Factor(r).sequences), Factor(r).remainder, b);
    SplitIsFactor(seqs, Factor(r).remainder);
  }

  lemma FactorIsLossless(s: Str)
    ensures Flatten(Factor(s).sequences) + Factor(s).remainder == s
  {
    FactorIsASplit(s);
  }

  /** A remainder is factored into nothing. */
  lemma RemainderIsStuck(s: Str)
    ensures Factor(Factor(s).remainder) == Factored([], Factor(s).remainder)
  {
    var r := Factor(s).remainder;
    FactorIsASplit(s);
    SplitIsFactor([], r);
    assert Flatten([]) + r == r;
  }

  // ------------------------------------------------------------------ emission

  datatype Event = Data(text: Str) | Paste(text: Str)

  /** The code point of an unmodified Kitty report `ESC [ n u`, `ESC [ n : … u`, if it is printable. */
  function KittyPrintable(sequence: Str): Option<nat> {
    if |sequence| < 4 || sequence[0] != ESC || sequence[1] != 0x5b || sequence[|sequence| - 1] != 0x75 then None
    else
      var fields := Split(sequence[2..|sequence| - 1], COLON);
      if && fields[0] != [] && AllDigits(fields[0])
         && (|fields| == 1
             || (|fields| == 2 && AllDigits(fields[1]))
             || (|fields| == 3 && AllDigits(fields[1]) && fields[2] != [] && AllDigits(fields[2])))
         && DecimalValue(fields[0]) >= 32
      then Some(DecimalValue(fields[0])) else None
  }

  /** A single unit that repeats the pending Kitty report is swallowed; everything else is emitted. */
  function EmitOne(pending: Option<nat>, sequence: Str): (Option<nat>, seq<Event>) {
    if |sequence| == 1 && pending == Some(sequence[0]) then (None, [])
    else (KittyPrintable(sequence), [Data(sequence)])
  }

  function Emit(pending: Option<nat>, sequences: seq<Str>): (Option<nat>, seq<Event>)
    decreases |sequences|
  {
    if sequences == [] then (pending, [])
    else
      var (p, first) := EmitOne(pending, sequences[0]);
      var (q, rest) := Emit(p, sequences[1..]);
      (q, first + rest)
  }

  lemma {:induction false} EmitAppend(pending: Option<nat>, a: seq<Str>, b: seq<Str>)
    ensures Emit(pending, a + b) == (Emit(Emit(pending, a).0, b).0, Emit(pending, a).1 + Emit(Emit(pending, a).0, b).1)
    decreases |a|
  {
    if a == [] {
      assert a + b == b;
      assert [] + Emit(pending, b).1 == Emit(pending, b).1;
    } else {
      var (p, first) := EmitOne(pending, a[0]);
      assert (a + b)[0] == a[0] && (a + b)[1..] == a[1..] + b;
      EmitAppend(p, a[1..], b);
      var (q, rest) := Emit(p, a[1..]);
      assert first + (rest + Emit(q, b).1) == (first + rest) + Emit(q, b).1;
    }
  }

  // ------------------------------------------------------------------ the two modes

  datatype State = State(buffer: Str, pasteMode: bool, pasteBuffer: Str, pending: Option<nat>) {
    /** Between calls the buffer holds at most one unfinished escape sequence, and nothing while pasting. */
    ghost predicate Valid() {
      if pasteMode then buffer == [] && pending == None && IndexOf(pasteBuffer, PASTE_END) == None
      else pasteBuffer == [] && IsUnfinished(buffer)
    }
  }

  const FRESH: State := State([], false, [], None)

  type Outcome = (State, seq<Event>)

  /** One call of `process` on the characters `str`. */
  function Read(st: State, str: Str): (r: Outcome)
    requires st.Valid()
    ensures r.0.Valid()
    decreases |st.buffer| + |st.pasteBuffer| + |str|, 2
  {
    if str == [] && st.buffer == [] then
      var (p, events) := EmitOne(st.pending, []);
      (st.(pending := p), events)
    else if st.pasteMode then Absorb(st.pasteBuffer + st.buffer + str)
    else ReadText(st.buffer + str, st.pending)
  }

  /** Text mode, with the buffered and the new characters already joined. */
  function ReadText(t: Str, pending: Option<nat>): (r: Outcome)
    ensures r.0.Valid()
    decreases |t|, 1
  {
    match IndexOf(t, PASTE_START)
    case Some(i) =>
      var (_, before) := Emit(pending, Factor(t[..i]).sequences);
      var (st, after) := Absorb(t[i + |PASTE_START|..]);
      (st, before + after)
    case None =>
      var f := Factor(t);
      var (p, events) := Emit(pending, f.sequences);
      FactorIsASplit(t);
      (State(f.remainder, false, [], p), events)
  }

  /** Paste mode: `p` is everything received since the start marker. */
  function Absorb(p: Str): (r: Outcome)
    ensures r.0.Valid()
    decreases |p|, 0
  {
    match IndexOf(p, PASTE_END)
    case None => (State([], true, p, None), [])
    case Some(j) =>
      var rest := p[j + |PASTE_END|..];
      if rest == [] then (FRESH, [Paste(p[..j])])
      else
        var (st, events) := Read(FRESH, rest);
        (st, [Paste(p[..j])] + events)
  }

  /** Continue from an outcome with the next chunk. */
  function Then(r: Outcome, chunk: Str): Outcome
    requires r.0.Valid()
  {
    var (st, events) := Read(r.0, chunk);
    (st, r.1 + events)
  }

  function ReadAll(st: State, chunks: seq<Str>): (r: Outcome)
    requires st.Valid()
    ensures r.0.Valid()
  {
    if chunks == [] then (st, [])
    else Then(ReadAll(st, chunks[..|chunks| - 1]), chunks[|chunks| - 1])
  }

  // ------------------------------------------------------------------ chunk independence

  /**
   * At every start marker that text mode meets, the marker's first five units, read after the text
   * before it, complete no sequence.  (A text that factors completely always satisfies this.)
   */
  predicate MarkersStandAlone(t: Str)
    decreases |t|, 1
  {
    match IndexOf(t, PASTE_START)
    case None => true
    case Some(i) =>
      && |Factor(t[..i + 5]).sequences| == |Factor(t[..i]).sequences|
      && PasteThenStandAlone(t[i + |PASTE_START|..])
  }

  predicate PasteThenStandAlone(p: Str)
    decreases |p|, 0
  {
    match IndexOf(p, PASTE_END)
    case None => true
    case Some(j) => MarkersStandAlone(p[j + |PASTE_END|..])
  }

  /** The same condition for a state and the input still to come. */
  predicate Independent(st: State, str: Str) {
    if st.pasteMode then PasteThenStandAlone(st.pasteBuffer + st.buffer + str)
    else MarkersStandAlone(st.buffer + str)
  }

  lemma {:induction false} IndexFromExtends(a: Str, b: Str, pat: Str, from: nat)
    requires IndexFrom(a, pat, from).Some?
    ensures IndexFrom(a + b, pat, from) == IndexFrom(a, pat, from)
    decreases |a| - from
  {
    assert (a + b)[from..from + |pat|] == a[from..from + |pat|];
    if !At(a, pat, from) { IndexFromExtends(a, b, pat, from + 1); }
  }

  lemma IndexOfExtends(a: Str, b: Str, pat: Str)
    requires IndexOf(a, pat).Some?
    ensures IndexOf(a + b, pat) == IndexOf(a, pat)
  {
    IndexFromExtends(a, b, pat, 0);
  }

  /** The first occurrence is determined by its two defining facts. */
  lemma IndexOfIs(s: Str, pat: Str, i: nat)
    requires At(s, pat, i) && forall k: nat | k < i :: !At(s, pat, k)
    ensures IndexOf(s, pat) == Some(i)
  {
    assert !(IndexOf(s, pat).Some? && IndexOf(s, pat).value > i);
  }

  lemma IndexOfDrop(s: Str, pat: Str, d: nat)
    requires d <= |s|
    ensures IndexOf(s, pat).None? ==> IndexOf(s[d..], pat).None?
    ensures IndexOf(s, pat).Some? && d <= IndexOf(s, pat).value ==> IndexOf(s[d..], pat) == Some(IndexOf(s, pat).value - d)
  {
    forall k: nat | d + k + |pat| <= |s|
      ensures At(s[d..], pat, k) <==> At(s, pat, d + k)
    {
      assert s[d..][k..k + |pat|] == s[d + k..d + k + |pat|];
    }
    if IndexOf(s, pat).Some? && d <= IndexOf(s, pat).value {
      IndexOfIs(s[d..], pat, IndexOf(s, pat).value - d);
    }
  }

  /** A prefix of an independent input is independent. */
  lemma {:induction false} MarkersPrefix(t: Str, b: Str)
    requires MarkersStandAlone(t + b)
    ensures MarkersStandAlone(t)
    decreases |t|, 1
  {
    match IndexOf(t, PASTE_START)
    case None =>
    case Some(i) =>
      IndexOfExtends(t, b, PASTE_START);
      assert (t + b)[..i + 5] == t[..i + 5] && (t + b)[..i] == t[..i];
      assert (t + b)[i + 6..] == t[i + 6..] + b;
      PastePrefix(t[i + 6..], b);
  }

  lemma {:induction false} PastePrefix(p: Str, b: Str)
    requires PasteThenStandAlone(p + b)
    ensures PasteThenStandAlone(p)
    decreases |p|, 0
  {
    match IndexOf(p, PASTE_END)
    case None =>
    case Some(j) =>
      IndexOfExtends(p, b, PASTE_END);
      assert (p + b)[j + 6..] == p[j + 6..] + b;
      MarkersPrefix(p[j + 6..], b);
  }

  /** If `x` and `y` complete nothing after `h`, then neither does `x` alone. */
  lemma NothingCompleted(h: Str, x: Str, y: Str)
    requires |Factor(h + x + y).sequences| == |Factor(h).sequences|
    ensures Factor(h + x) == Factored(Factor(h).sequences, Factor(h).remainder + x)
  {
    var tail := Factor(h).remainder + x;
    FactorConcat(h, x);
    FactorConcat(h + x, y);
    FactorIsASplit(tail);
    var f := Factor(tail);
    assert f.sequences == [];
    assert Flatten(f.sequences) + f.remainder == f.remainder;
  }

  // What one call does, case by case.

  lemma ReadMarked(t: Str, i: nat, pending: Option<nat>)
    requires IndexOf(t, PASTE_START) == Some(i)
    ensures var rest := Absorb(t[i + 6..]);
            ReadText(t, pending) == (rest.0, Emit(pending, Factor(t[..i]).sequences).1 + rest.1)
  {}

  lemma ReadUnmarked(t: Str, pending: Option<nat>)
    requires IndexOf(t, PASTE_START) == None
    ensures ReadText(t, pending) == (State(Factor(t).remainder, false, [], Emit(pending, Factor(t).sequences).0),
                                     Emit(pending, Factor(t).sequences).1)
  {}

  lemma ThenReads(r: Outcome, b: Str)
    requires r.0.Valid() && !r.0.pasteMode && b != []
    ensures Then(r, b) == (ReadText(r.0.buffer + b, r.0.pending).0, r.1 + ReadText(r.0.buffer + b, r.0.pending).1)
  {}

  lemma ThenAfter(st: State, before: seq<Event>, after: seq<Event>, b: Str)
    requires st.Valid()
    ensures Then((st, before + after), b) == (Then((st, after), b).0, before + Then((st, after), b).1)
  {
    var events := Read(st, b).1;
    assert (before + after) + events == before + (after + events);
  }

  lemma {:induction false} ReadTextInTwo(t: Str, b: Str, pending: Option<nat>)
    requires b != [] && MarkersStandAlone(t + b)
    ensures ReadText(t + b, pending) == Then(ReadText(t, pending), b)
    decreases |t|, 1
  {
    match IndexOf(t, PASTE_START)
    case Some(i) =>
      IndexOfExtends(t, b, PASTE_START);
      assert (t + b)[..i] == t[..i];
      var p := t[i + 6..];
      assert (t + b)[i + 6..] == p + b;
      ReadMarked(t + b, i, pending);
      ReadMarked(t, i, pending);
      AbsorbInTwo(p, b);
      ThenAfter(Absorb(p).0, Emit(pending, Factor(t[..i]).sequences).1, Absorb(p).1, b);
    case None =>
      match IndexOf(t + b, PASTE_START)
      case None => ReadUnmarkedInTwo(t, b, pending);
      case Some(i) =>
        if i < |t| { MarkerAcross(t, b, i, pending); } else { MarkerBeyond(t, b, i, pending); }
  }

  lemma ReadUnmarkedInTwo(t: Str, b: Str, pending: Option<nat>)
    requires b != [] && IndexOf(t, PASTE_START).None? && IndexOf(t + b, PASTE_START).None?
    ensures ReadText(t + b, pending) == Then(ReadText(t, pending), b)
  {
    var f := Factor(t);
    FactorIsLossless(t);
    Tail(t, Flatten(f.sequences), f.remainder, b);
    IndexOfDrop(t + b, PASTE_START, |Flatten(f.sequences)|);
    FactorConcat(t, b);
    EmitAppend(pending, f.sequences, Factor(f.remainder + b).sequences);
    ReadUnmarked(t + b, pending);
    ReadUnmarked(t, pending);
    ThenReads(ReadText(t, pending), b);
    ReadUnmarked(f.remainder + b, Emit(pending, f.sequences).0);
  }

  lemma Tail(t: Str, done: Str, remainder: Str, b: Str)
    requires done + remainder == t
    ensures |done| <= |t| && (t + b)[|done|..] == remainder + b
  {
    assert t + b == done + (remainder + b);
  }

  /** Where the marker is once the characters `done` have been consumed. */
  lemma MarkerShifts(done: Str, remainder: Str, b: Str, i: nat)
    requires IndexOf(done + remainder + b, PASTE_START) == Some(i) && |done| <= i
    ensures IndexOf(remainder + b, PASTE_START) == Some(i - |done|)
    ensures i + 6 <= |done| + |remainder| + |b|
    ensures (done + remainder + b)[i + 6..] == (remainder + b)[i - |done| + 6..]
  {
    var s := done + remainder + b;
    assert s[|done|..] == remainder + b;
    IndexOfDrop(s, PASTE_START, |done|);
  }

  /** The marker starts in a later chunk. */
  lemma MarkerBeyond(t: Str, b: Str, i: nat, pending: Option<nat>)
    requires b != [] && IndexOf(t, PASTE_START).None?
    requires IndexOf(t + b, PASTE_START) == Some(i) && |t| <= i
    ensures ReadText(t + b, pending) == Then(ReadText(t, pending), b)
  {
    hide Factor, ReadText, Then, Flatten, IndexOf;
    var f, mid := Factor(t), b[..i - |t|];
    FactorIsLossless(t);
    var done, u := Flatten(f.sequences), f.remainder + b;
    MarkerShifts(done, f.remainder, b, i);
    var k := i - |done|;
    assert (t + b)[..i] == t + mid;
    assert u[..k] == f.remainder + mid;
    MarkedAfterEmission(t, b, i, k, mid, pending);
  }

  lemma MarkedAfterEmission(t: Str, b: Str, i: nat, k: nat, mid: Str, pending: Option<nat>)
    requires b != [] && IndexOf(t, PASTE_START).None? && IndexOf(t + b, PASTE_START) == Some(i)
    requires IndexOf(Factor(t).remainder + b, PASTE_START) == Some(k)
    requires (t + b)[..i] == t + mid && (Factor(t).remainder + b)[..k] == Factor(t).remainder + mid
    requires (t + b)[i + 6..] == (Factor(t).remainder + b)[k + 6..]
    ensures ReadText(t + b, pending) == Then(ReadText(t, pending), b)
  {
    var f := Factor(t);
    var p := Emit(pending, f.sequences).0;
    FactorConcat(t, mid);
    EmitAppend(pending, f.sequences, Factor(f.remainder + mid).sequences);
    ReadMarked(t + b, i, pending);
    ReadUnmarked(t, pending);
    ThenReads(ReadText(t, pending), b);
    ReadMarked(f.remainder + b, k, p);
    Regroup3(Emit(pending, f.sequences).1, Emit(p, Factor(f.remainder + mid).sequences).1, Absorb((t + b)[i + 6..]).1);
  }

  lemma Regroup3<T>(x: seq<T>, y: seq<T>, z: seq<T>)
    ensures (x + y) + z == x + (y + z)
  {}

  /** The marker starts in this chunk and ends in a later one. */
  lemma MarkerAcross(t: Str, b: Str, i: nat, pending: Option<nat>)
    requires b != [] && IndexOf(t, PASTE_START).None? && MarkersStandAlone(t + b)
    requires IndexOf(t + b, PASTE_START) == Some(i) && i < |t|
    ensures ReadText(t + b, pending) == Then(ReadText(t, pending), b)
  {
    hide Factor, Emit, Absorb, Read, ReadText, IndexOf, Flatten;
    var h, x := t[..i], t[i..];
    assert t == h + x;
    MarkerCut(t, b, i);
    NothingCompleted(h, x, b[..i + 5 - |t|]);
    var r := Factor(h).remainder;
    FactorIsLossless(h);
    var done := Flatten(Factor(h).sequences);
    assert done + (r + x) + b == t + b;
    MarkerShifts(done, r + x, b, i);
    assert (r + x + b)[..|r|] == r;
    MarkedAfterCut(t, b, i, pending);
  }

  lemma MarkerCut(t: Str, b: Str, i: nat)
    requires IndexOf(t, PASTE_START).None? && IndexOf(t + b, PASTE_START) == Some(i) && i < |t|
    ensures |t| < i + 6 <= |t| + |b|
    ensures (t + b)[..i] == t[..i] && (t + b)[..i + 5] == t[..i] + t[i..] + b[..i + 5 - |t|]
  {
    assert !At(t, PASTE_START, i);
  }

  lemma ReadMarkedAtOnce(u: Str, k: nat, pending: Option<nat>)
    requires IndexOf(u, PASTE_START) == Some(k) && Factor(u[..k]).sequences == []
    ensures ReadText(u, pending) == Absorb(u[k + 6..])
  {
    ReadMarked(u, k, pending);
    assert [] + Absorb(u[k + 6..]).1 == Absorb(u[k + 6..]).1;
  }

  lemma MarkedAfterCut(t: Str, b: Str, i: nat, pending: Option<nat>)
    requires b != [] && IndexOf(t, PASTE_START).None? && IndexOf(t + b, PASTE_START) == Some(i)
    requires Factor(t).sequences == Factor((t + b)[..i]).sequences
    requires Factor(t).remainder + b != []
    requires var r, u := Factor((t + b)[..i]).remainder, Factor(t).remainder + b;
             IndexOf(u, PASTE_START) == Some(|r|) && u[..|r|] == r && (t + b)[i + 6..] == u[|r| + 6..]
    ensures ReadText(t + b, pending) == Then(ReadText(t, pending), b)
  {
    hide Factor, Emit, ReadText, Absorb, Read, MarkersStandAlone;
    var r, u := Factor((t + b)[..i]).remainder, Factor(t).remainder + b;
    RemainderIsStuck((t + b)[..i]);
    ReadMarkedAtOnce(u, |r|, Emit(pending, Factor(t).sequences).0);
    ReadMarked(t + b, i, pending);
    ReadUnmarked(t, pending);
    ThenReads(ReadText(t, pending), b);
  }

  lemma AbsorbOpen(p: Str)
    requires IndexOf(p, PASTE_END) == None
    ensures Absorb(p) == (State([], true, p, None), [])
  {}

  lemma AbsorbClosed(p: Str, j: nat)
    requires IndexOf(p, PASTE_END) == Some(j)
    ensures var rest := p[j + 6..];
            Absorb(p) == if rest == [] then (FRESH, [Paste(p[..j])])
                         else (ReadText(rest, None).0, [Paste(p[..j])] + ReadText(rest, None).1)
  {
    var rest := p[j + 6..];
    assert [] + rest == rest;
  }

  lemma {:induction false} AbsorbInTwo(p: Str, b: Str)
    requires b != [] && PasteThenStandAlone(p + b)
    ensures Absorb(p + b) == Then(Absorb(p), b)
    decreases |p|, 0
  {
    hide Factor, Emit, Absorb, ReadText, MarkersStandAlone;
    match IndexOf(p, PASTE_END)
    case None =>
      AbsorbOpen(p);
      assert p + [] + b == p + b;
      assert [] + Absorb(p + b).1 == Absorb(p + b).1;
    case Some(j) =>
      IndexOfExtends(p, b, PASTE_END);
      var rest := p[j + 6..];
      assert (p + b)[..j] == p[..j] && (p + b)[j + 6..] == rest + b;
      AbsorbClosed(p, j);
      AbsorbClosed(p + b, j);
      if rest == [] {
        assert rest + b == b && [] + b == b;
        ThenReads(Absorb(p), b);
      } else {
        ReadTextInTwo(rest, b, None);
        ThenAfter(ReadText(rest, None).0, [Paste(p[..j])], ReadText(rest, None).1, b);
      }
  }

  lemma ReadInTwo(st: State, a: Str, b: Str)
    requires st.Valid() && a != [] && b != [] && Independent(st, a + b)
    ensures Read(st, a + b) == Then(Read(st, a), b)
  {
    hide Factor, Emit, Absorb, ReadText, MarkersStandAlone, PasteThenStandAlone;
    if st.pasteMode {
      var p := st.pasteBuffer + st.buffer + a;
      assert st.pasteBuffer + st.buffer + (a + b) == p + b;
      AbsorbInTwo(p, b);
    } else {
      assert st.buffer + (a + b) == st.buffer + a + b;
      ReadTextInTwo(st.buffer + a, b, st.pending);
    }
  }

  /** From any state between calls, an independent input may be cut into chunks anywhere. */
  lemma {:induction false} ChunkingIsInvisible(st: State, chunks: seq<Str>)
    requires st.Valid() && chunks != [] && forall c | c in chunks :: c != []
    requires Independent(st, Flatten(chunks))
    ensures ReadAll(st, chunks) == Read(st, Flatten(chunks))
    decreases |chunks|
  {
    var n := |chunks| - 1;
    var front, last := chunks[..n], chunks[n];
    assert chunks == front + [last];
    FlattenAppend(front, [last]);
    assert Flatten([last]) == last + Flatten([]);
    assert Flatten(chunks) == Flatten(front) + last;
    assert last in chunks;
    if n == 0 {
      assert Flatten(chunks) == last;
      assert ReadAll(st, front) == (st, []);
      assert [] + Read(st, last).1 == Read(st, last).1;
    } else {
      assert Flatten(front) != [] by { assert front[0] in chunks; }
      if st.pasteMode {
        assert st.pasteBuffer + st.buffer + Flatten(chunks) == st.pasteBuffer + st.buffer + Flatten(front) + last;
        PastePrefix(st.pasteBuffer + st.buffer + Flatten(front), last);
      } else {
        assert st.buffer + Flatten(chunks) == st.buffer + Flatten(front) + last;
        MarkersPrefix(st.buffer + Flatten(front), last);
      }
      assert forall c | c in front :: c in chunks;
      ChunkingIsInvisible(st, front);
      ReadInTwo(st, Flatten(front), last);
    }
  }

  /** Input after which the marker does not stand alone: the first five marker units complete an extra sequence. */
  lemma ExtraSequence(h: Str)
    requires |Factor(h + PASTE_START[..5]).sequences| != |Factor(h).sequences|
    ensures var all, n := Factor(h + PASTE_START[..5]).sequences, |Factor(h).sequences|;
            n < |all| && all[..n] == Factor(h).sequences && |all[n]| > 1
  {
    hide Factor, FirstEnd, IsAtom;
    var x := PASTE_START[..5];
    var r := Factor(h).remainder;
    FactorConcat(h, x);
    FactorIsASplit(h);
    var extra := Factor(r + x).sequences;
    assert extra != [] && Factor(h + x).sequences == Factor(h).sequences + extra;
    var s := r + x;
    assert s[0] == ESC && SequenceStatus(s[..1]) == Incomplete;
    hide SequenceStatus;
    if FirstEnd(s, 1).None? {
      FactorUnfinished(s);
    } else {
      FactorStep(s, FirstEnd(s, 1).value);
    }
  }

  lemma EmitLong(pending: Option<nat>, sequences: seq<Str>, n: nat)
    requires n < |sequences| && |sequences[n]| > 1
    ensures var before := Emit(pending, sequences[..n]).1;
            var all := Emit(pending, sequences).1;
            |before| < |all| && all[|before|] == Data(sequences[n])
  {
    var a, b := sequences[..n], sequences[n..];
    assert sequences == a + b;
    EmitAppend(pending, a, b);
    assert b[0] == sequences[n];
  }

  /** Cutting just before the marker's final unit is visible. */
  lemma CutBeforeTilde(s: Str, i: nat)
    requires IndexOf(s, PASTE_START) == Some(i)
    requires |Factor(s[..i + 5]).sequences| != |Factor(s[..i]).sequences|
    ensures Read(FRESH, s) != Then(Read(FRESH, s[..i + 5]), s[i + 5..])
  {
    hide Factor, Emit, ReadText, Absorb, Read, IndexOf;
    var h, t := s[..i], s[..i + 5];
    assert t == h + PASTE_START[..5] by { assert t == s[..i] + s[i..i + 6][..5]; }
    NotFoundInPrefix(s, i + 5, PASTE_START);
    ExtraSequence(h);
    EmitLong(None, Factor(t).sequences, |Factor(h).sequences|);
    ReadFresh(s);
    ReadFresh(t);
    ReadMarked(s, i, None);
    ReadUnmarked(t, None);
    var before := Emit(None, Factor(h).sequences).1;
    PasteComesFirst(s[i + 6..]);
    DataInsteadOfPaste(before, Absorb(s[i + 6..]).1, Read(FRESH, t).1, Read(Read(FRESH, t).0, s[i + 5..]).1);
  }

  lemma PasteComesFirst(p: Str)
    ensures Absorb(p).1 == [] || Absorb(p).1[0].Paste?
  {
    hide Read, ReadText, IndexOf;
  }

  lemma DataInsteadOfPaste(before: seq<Event>, pasted: seq<Event>, cut: seq<Event>, more: seq<Event>)
    requires pasted == [] || pasted[0].Paste?
    requires |before| < |cut| && cut[|before|].Data?
    ensures before + pasted != cut + more
  {
    if pasted != [] { assert (before + pasted)[|before|] == pasted[0]; }
    assert (cut + more)[|before|] == cut[|before|];
    assert |cut + more| > |before|;
  }

  lemma NotFoundInPrefix(s: Str, n: nat, pat: Str)
    requires n <= |s| && IndexOf(s, pat).Some? && n < IndexOf(s, pat).value + |pat|
    ensures IndexOf(s[..n], pat) == None
  {
    assert s[..n] + s[n..] == s;
    if IndexOf(s[..n], pat).Some? { IndexOfExtends(s[..n], s[n..], pat); }
  }

  lemma ReadFresh(s: Str)
    requires s != []
    ensures Read(FRESH, s) == ReadText(s, None)
  {
    hide ReadText, Absorb;
    assert [] + s == s;
  }

  // ------------------------------------------------------------------ text, then one bracketed paste

  datatype Piece = Piece(text: Str, pasted: Str) {
    predicate Quiet() {
      IndexOf(text, PASTE_START) == None && IndexOf(pasted, PASTE_END) == None
    }

    function Render(): Str {
      text + PASTE_START + (pasted + PASTE_END)
    }

    function Meaning(): seq<Event> {
      Emit(None, Factor(text).sequences).1 + [Paste(pasted)]
    }
  }

  /** A marker begins with its only ESC, so it never overlaps the marker-free characters before it. */
  lemma MarkerIsFoundAfter(a: Str, marker: Str, b: Str)
    requires marker in {PASTE_START, PASTE_END} && IndexOf(a, marker) == None
    ensures IndexOf(a + marker + b, marker) == Some(|a|)
  {
    var s := a + marker + b;
    assert s[|a|..|a| + 6] == marker;
    forall k: nat | k < |a|
      ensures !At(s, marker, k)
    {
      if k + 6 <= |a| {
        assert a[k..k + 6] == s[k..k + 6];
        assert !At(a, marker, k);
      } else if k + 6 <= |s| {
        assert s[k..k + 6][|a| - k] == ESC;
        assert marker[|a| - k] != ESC;
      }
    }
    IndexOfIs(s, marker, |a|);
  }

  lemma PieceShape(q: Piece, rest: Str)
    requires q.Quiet()
    ensures var s := q.Render() + rest;
            && IndexOf(s, PASTE_START) == Some(|q.text|)
            && s[..|q.text|] == q.text
            && s[..|q.text| + 5] == q.text + PASTE_START[..5]
            && s[|q.text| + 6..] == q.pasted + PASTE_END + rest
    ensures var p := q.pasted + PASTE_END + rest;
            IndexOf(p, PASTE_END) == Some(|q.pasted|) && p[..|q.pasted|] == q.pasted && p[|q.pasted| + 6..] == rest
  {
    var s := q.Render() + rest;
    assert s == q.text + PASTE_START + (q.pasted + PASTE_END + rest);
    MarkerIsFoundAfter(q.text, PASTE_START, q.pasted + PASTE_END + rest);
    MarkerIsFoundAfter(q.pasted, PASTE_END, rest);
  }

  lemma FirstPiece(q: Piece, rest: Str)
    requires q.Quiet()
    ensures Read(FRESH, q.Render() + rest)
         == if rest == [] then (FRESH, q.Meaning()) else (Read(FRESH, rest).0, q.Meaning() + Read(FRESH, rest).1)
  {
    hide Factor, Emit, ReadText, Absorb, Read;
    var s, p := q.Render() + rest, q.pasted + PASTE_END + rest;
    PieceShape(q, rest);
    ReadFresh(s);
    ReadMarked(s, |q.text|, None);
    AbsorbClosed(p, |q.pasted|);
    if rest != [] {
      ReadFresh(rest);
      Regroup3(Emit(None, Factor(q.text).sequences).1, [Paste(q.pasted)], Read(FRESH, rest).1);
    }
  }

  /** If some marker does not stand alone, two chunks can be told from one. */
  lemma {:induction false} VisibleCut(s: Str) returns (k: nat)
    requires !MarkersStandAlone(s)
    ensures 0 < k < |s|
    ensures Read(FRESH, s) != Then(Read(FRESH, s[..k]), s[k..])
    decreases |s|
  {
    hide Factor, Emit, Absorb, Read, ReadText, MarkersStandAlone;
    var i := FirstMarker(s);
    if |Factor(s[..i + 5]).sequences| != |Factor(s[..i]).sequences| {
      k := i + 5;
      CutBeforeTilde(s, i);
    } else {
      var q, rest := NextTextAfterPaste(s, i);
      var m := VisibleCut(rest);
      k := |q.Render()| + m;
      CutBehind(q.Render(), rest, m);
      CutAfterPaste(q, rest, m);
    }
  }

  lemma CutBehind(a: Str, b: Str, m: nat)
    requires m <= |b|
    ensures (a + b)[..|a| + m] == a + b[..m] && (a + b)[|a| + m..] == b[m..]
  {}

  lemma FirstMarker(s: Str) returns (i: nat)
    requires !MarkersStandAlone(s)
    ensures IndexOf(s, PASTE_START) == Some(i)
  {
    i := IndexOf(s, PASTE_START).value;
  }

  lemma NextTextAfterPaste(s: Str, i: nat) returns (q: Piece, rest: Str)
    requires !MarkersStandAlone(s) && IndexOf(s, PASTE_START) == Some(i)
    requires |Factor(s[..i + 5]).sequences| == |Factor(s[..i]).sequences|
    ensures q.Quiet() && s == q.Render() + rest && !MarkersStandAlone(rest) && |rest| < |s|
  {
    hide Factor, IndexOf;
    var p := s[i + 6..];
    var j := IndexOf(p, PASTE_END).value;
    q, rest := Piece(s[..i], p[..j]), p[j + 6..];
    NotFoundInPrefix(s, i, PASTE_START);
    NotFoundInPrefix(p, j, PASTE_END);
    AroundMarker(s, PASTE_START, i);
    AroundMarker(p, PASTE_END, j);
    Regroup3(s[..i] + PASTE_START, p[..j] + PASTE_END, rest);
  }

  lemma AroundMarker(s: Str, marker: Str, i: nat)
    requires |marker| == 6 && At(s, marker, i)
    ensures s == s[..i] + marker + s[i + 6..]
  {
    assert s == s[..i] + s[i..i + 6] + s[i + 6..];
  }

  lemma CutAfterPaste(q: Piece, rest: Str, m: nat)
    requires q.Quiet() && 0 < m < |rest|
    requires Read(FRESH, rest) != Then(Read(FRESH, rest[..m]), rest[m..])
    ensures Read(FRESH, q.Render() + rest) != Then(Read(FRESH, q.Render() + rest[..m]), rest[m..])
  {
    hide Read;
    FirstPiece(q, rest);
    FirstPiece(q, rest[..m]);
    StillDiffer(q.Meaning(), Read(FRESH, rest), Read(FRESH, rest[..m]), rest[m..]);
  }

  lemma StillDiffer(before: seq<Event>, r: Outcome, cut: Outcome, chunk: Str)
    requires cut.0.Valid() && r != Then(cut, chunk)
    ensures (r.0, before + r.1) != Then((cut.0, before + cut.1), chunk)
  {
    ThenAfter(cut.0, before, cut.1, chunk);
    CancelPrefix(before, r.1, Then(cut, chunk).1);
  }

  lemma CancelPrefix<T>(x: seq<T>, y: seq<T>, z: seq<T>)
    ensures x + y == x + z ==> y == z
  {
    assert (x + y)[|x|..] == y && (x + z)[|x|..] == z;
  }

  ghost predicate IsChunking(chunks: seq<Str>, s: Str) {
    Flatten(chunks) == s && forall c | c in chunks :: c != []
  }

  /** Every chunking of a non-empty input gives the same events and state iff its markers stand alone. */
  lemma ChunkIndependence(s: Str)
    requires s != []
    ensures MarkersStandAlone(s)
       <==> forall chunks: seq<Str> :: IsChunking(chunks, s) ==> ReadAll(FRESH, chunks) == Read(FRESH, s)
  {
    hide Factor, Emit, ReadText, Absorb, Read, MarkersStandAlone;
    assert [] + s == s;
    if MarkersStandAlone(s) {
      forall chunks: seq<Str> | IsChunking(chunks, s)
        ensures ReadAll(FRESH, chunks) == Read(FRESH, s)
      {
        assert chunks != [];
        ChunkingIsInvisible(FRESH, chunks);
      }
    } else {
      var k := VisibleCut(s);
      var a, b := s[..k], s[k..];
      var chunks := [a, b];
      assert chunks[1..] == [b] && Flatten([b]) == b + Flatten([]);
      assert Flatten(chunks) == s;
      assert IsChunking(chunks, s);
      assert chunks[..1] == [a];
      var none: seq<Str> := [a][..0];
      assert none == [];
      assert ReadAll(FRESH, []) == (FRESH, []);
      assert ReadAll(FRESH, [a]) == Read(FRESH, a) by {
        assert [] + Read(FRESH, a).1 == Read(FRESH, a).1;
      }
      assert ReadAll(FRESH, chunks) == Then(Read(FRESH, a), b);
    }
  }

  /** A paste marker right after a lone ESC is read differently when it arrives in two chunks. */
  lemma MarkerAfterEscape()
    ensures !MarkersStandAlone([ESC] + PASTE_START)
  {
    var s := [ESC] + PASTE_START;
    assert s[1..7] == PASTE_START;
    assert !At(s, PASTE_START, 0) by { assert s[0..6][1] == ESC; }
    IndexOfIs(s, PASTE_START, 1);
    assert SequenceStatus(s[..1]) == Incomplete;
    assert Factor(s[..1]) == Factored([], s[..1]) by { assert s[..1][..1] == s[..1]; }
    var t := s[..6];
    assert t[..1] == [ESC] && t[..2] == [ESC, ESC];
    assert FirstEnd(t, 1) == Some(2);
    assert Factor(t).sequences != [];
  }

  // ------------------------------------------------------------------ streams of texts and pastes

  /** Texts that contain no start marker and factor completely, each followed by one bracketed paste. */
  predicate Clean(q: Piece) {
    q.Quiet() && Factor(q.text).remainder == []
  }

  function RenderAll(pieces: seq<Piece>, tail: Str): Str {
    if pieces == [] then tail else pieces[0].Render() + RenderAll(pieces[1..], tail)
  }

  function MeaningOfAll(pieces: seq<Piece>, tail: Str): seq<Event> {
    if pieces == [] then Emit(None, Factor(tail).sequences).1
    else pieces[0].Meaning() + MeaningOfAll(pieces[1..], tail)
  }

  lemma MarkerUnitsWait()
    ensures Factor(PASTE_START[..5]) == Factored([], PASTE_START[..5])
  {
    var x: Str := PASTE_START[..5];
    assert x == [ESC, 0x5b, 0x32, 0x30, 0x30];
    forall k | 1 <= k <= |x|
      ensures SequenceStatus(x[..k]) != Complete
    {
      ParametersWait(x[..k]);
    }
    hide SequenceStatus;
    FactorUnfinished(x);
  }

  lemma ParametersWait(data: Str)
    requires data != [] && data[0] == ESC && (|data| > 1 ==> data[1] == 0x5b) && forall k | 2 <= k < |data| :: IsDigit(data[k])
    ensures SequenceStatus(data) == Incomplete
  {}

  lemma {:induction false} CleanStreamsStandAlone(pieces: seq<Piece>, tail: Str)
    requires forall q | q in pieces :: Clean(q)
    requires IndexOf(tail, PASTE_START) == None
    ensures MarkersStandAlone(RenderAll(pieces, tail))
    decreases |pieces|
  {
    if pieces != [] {
      var q, rest := pieces[0], RenderAll(pieces[1..], tail);
      assert q in pieces && Clean(q);
      PieceShape(q, rest);
      FactorConcat(q.text, PASTE_START[..5]);
      MarkerUnitsWait();
      assert [] + PASTE_START[..5] == PASTE_START[..5];
      CleanStreamsStandAlone(pieces[1..], tail);
    }
  }

  lemma {:induction false} CleanStreamsMean(pieces: seq<Piece>, tail: Str)
    requires forall q | q in pieces :: Clean(q)
    requires IndexOf(tail, PASTE_START) == None && (pieces != [] || tail != [])
    ensures Read(FRESH, RenderAll(pieces, tail))
         == (State(Factor(tail).remainder, false, [], Emit(None, Factor(tail).sequences).0), MeaningOfAll(pieces, tail))
    decreases |pieces|
  {
    if pieces == [] {
      ReadFresh(tail);
      ReadUnmarked(tail, None);
    } else {
      var q, rest := pieces[0], RenderAll(pieces[1..], tail);
      assert q in pieces && Clean(q);
      FirstPiece(q, rest);
      if rest == [] {
        assert MeaningOfAll(pieces[1..], tail) == [];
        assert q.Meaning() + [] == q.Meaning();
      } else {
        CleanStreamsMean(pieces[1..], tail);
      }
    }
  }

  /** However a clean stream is cut, it is read as its texts' sequences and its pastes, in order. */
  lemma CleanStreamsAreReadAsWritten(pieces: seq<Piece>, tail: Str, chunks: seq<Str>)
    requires forall q | q in pieces :: Clean(q)
    requires IndexOf(tail, PASTE_START) == None && (pieces != [] || tail != [])
    requires IsChunking(chunks, RenderAll(pieces, tail))
    ensures ReadAll(FRESH, chunks)
         == (State(Factor(tail).remainder, false, [], Emit(None, Factor(tail).sequences).0), MeaningOfAll(pieces, tail))
  {
    CleanStreamsStandAlone(pieces, tail);
    CleanStreamsMean(pieces, tail);
    ChunkIndependence(RenderAll(pieces, tail));
  }

  // ------------------------------------------------------------------ the buffer itself

  lemma FactorStep(s: Str, n: nat)
    requires s != [] && if s[0] != ESC then n == 1 else FirstEnd(s, 1) == Some(n)
    ensures Factor(s) == Factored([s[..n]] + Factor(s[n..]).sequences, Factor(s[n..]).remainder)
  {}

  lemma FactorUnfinished(s: Str)
    requires s != [] && s[0] == ESC && forall k | 1 <= k <= |s| :: SequenceStatus(s[..k]) != Complete
    ensures Factor(s) == Factored([], s)
  {}

  lemma FactorEmpty()
    ensures Factor([]) == Factored([], [])
  {}

  lemma FactorMoves(buffer: Str, pos: nat, n: nat, sequences: seq<Str>)
    requires pos < |buffer| && 0 < n <= |buffer| - pos
    requires if buffer[pos] != ESC then n == 1 else FirstEnd(buffer[pos..], 1) == Some(n)
    requires Factor(buffer) == Factored(sequences + Factor(buffer[pos..]).sequences, Factor(buffer[pos..]).remainder)
    ensures var rest := Factor(buffer[pos + n..]);
            Factor(buffer) == Factored(sequences + [buffer[pos..][..n]] + rest.sequences, rest.remainder)
  {
    hide Factor, FirstEnd, SequenceStatus;
    var s := buffer[pos..];
    FactorStep(s, n);
    Regroup3(sequences, [s[..n]], Factor(s[n..]).sequences);
    TailOfTail(buffer, pos, n);
  }

  lemma TailOfTail(s: Str, i: nat, n: nat)
    requires i + n <= |s|
    ensures s[i..][n..] == s[i + n..]
  {}

  lemma FirstEndIs(s: Str, n: nat)
    requires 1 <= n <= |s| && SequenceStatus(s[..n]) == Complete
    requires forall k | 1 <= k < n :: SequenceStatus(s[..k]) != Complete
    ensures FirstEnd(s, 1) == Some(n)
  {
    hide FirstEnd, SequenceStatus;
    var r := FirstEnd(s, 1);
  }

  method ExtractCompleteSequences(buffer: Str) returns (sequences: seq<Str>, remainder: Str)
    ensures Factor(buffer) == Factored(sequences, remainder)
  {
    hide Factor, FirstEnd, SequenceStatus;
    FactorEmpty();
    sequences := [];
    var pos := 0;
    assert buffer[0..] == buffer && sequences + Factor(buffer).sequences == Factor(buffer).sequences;
    while pos < |buffer|
      invariant 0 <= pos <= |buffer|
      invariant Factor(buffer) == Factored(sequences + Factor(buffer[pos..]).sequences, Factor(buffer[pos..]).remainder)
    {
      var remaining := buffer[pos..];
      if remaining[0] == ESC {
        var seqEnd := 1;
        while seqEnd <= |remaining|
          invariant 1 <= seqEnd <= |remaining| + 1
          invariant forall k | 1 <= k < seqEnd :: SequenceStatus(remaining[..k]) != Complete
        {
          if SequenceStatus(remaining[..seqEnd]) == Complete { break; }
          seqEnd := seqEnd + 1;
        }
        if seqEnd > |remaining| {
          FactorUnfinished(remaining);
          assert sequences + [] == sequences;
          return sequences, remaining;
        }
        FirstEndIs(remaining, seqEnd);
        FactorMoves(buffer, pos, seqEnd, sequences);
        sequences := sequences + [remaining[..seqEnd]];
        pos := pos + seqEnd;
      } else {
        FactorMoves(buffer, pos, 1, sequences);
        sequences := sequences + [remaining[..1]];
        pos := pos + 1;
      }
    }
    assert buffer[pos..] == [] && sequences + [] == sequences;
    remainder := [];
  }

  lemma EmitOneMore(pending: Option<nat>, sequences: seq<Str>, i: nat)
    requires i < |sequences|
    ensures var (p, events) := Emit(pending, sequences[..i]);
            Emit(pending, sequences[..i + 1]) == (EmitOne(p, sequences[i]).0, events + EmitOne(p, sequences[i]).1)
  {
    assert sequences[..i + 1] == sequences[..i] + [sequences[i]];
    EmitAppend(pending, sequences[..i], [sequences[i]]);
    var (p, events) := Emit(pending, sequences[..i]);
    var none: seq<Str> := [sequences[i]][1..];
    assert none == [];
    assert EmitOne(p, sequences[i]).1 + [] == EmitOne(p, sequences[i]).1;
  }

  lemma NothingToEmit(s: Str, pending: Option<nat>)
    requires s == []
    ensures Emit(pending, Factor(s).sequences).1 == []
  {}

  // What a call of `process` comes to, case by case.

  lemma ReadNothing(st: State)
    requires st.Valid() && st.buffer == []
    ensures Read(st, []) == (st.(pending := EmitOne(st.pending, []).0), EmitOne(st.pending, []).1)
  {}

  lemma ReadPasting(st: State, str: Str)
    requires st.Valid() && st.pasteMode && str != []
    ensures Read(st, str) == Absorb(st.pasteBuffer + (st.buffer + str))
  {
    hide Absorb, ReadText, Factor, Emit, EmitOne;
    assert st.pasteBuffer + (st.buffer + str) == st.pasteBuffer + st.buffer + str;
  }

  lemma ReadTyping(st: State, str: Str)
    requires st.Valid() && !st.pasteMode && (str != [] || st.buffer != [])
    ensures Read(st, str) == ReadText(st.buffer + str, st.pending)
  {}

  class InputBuffer {
    var buffer: Str
    var pasteMode: bool
    var pasteBuffer: Str
    var pending: Option<nat>
    /** Everything the listeners have been given. */
    var emitted: seq<Event>

    ghost function Model(): State
      reads this
    {
      State(buffer, pasteMode, pasteBuffer, pending)
    }

    ghost predicate Valid()
      reads this
    {
      Model().Valid()
    }

    constructor ()
      ensures Model() == FRESH && Valid() && emitted == []
    {
      buffer, pasteMode, pasteBuffer, pending, emitted := [], false, [], None, [];
    }

    method EmitDataSequence(sequence: Str)
      modifies this`pending, this`emitted
      ensures (pending, emitted) == (EmitOne(old(pending), sequence).0, old(emitted) + EmitOne(old(pending), sequence).1)
    {
      if |sequence| == 1 && pending == Some(sequence[0]) {
        pending := None;
        assert emitted + [] == emitted;
      } else {
        pending := KittyPrintable(sequence);
        emitted := emitted + [Data(sequence)];
      }
    }

    method EmitAll(sequences: seq<Str>)
      modifies this`pending, this`emitted
      ensures (pending, emitted) == (Emit(old(pending), sequences).0, old(emitted) + Emit(old(pending), sequences).1)
    {
      var i := 0;
      assert sequences[..0] == [] && emitted + [] == emitted;
      while i < |sequences|
        invariant 0 <= i <= |sequences|
        invariant pending == Emit(old(pending), sequences[..i]).0
        invariant emitted == old(emitted) + Emit(old(pending), sequences[..i]).1
      {
        EmitOneMore(old(pending), sequences, i);
        Regroup3(old(emitted), Emit(old(pending), sequences[..i]).1, EmitOne(pending, sequences[i]).1);
        EmitDataSequence(sequences[i]);
        i := i + 1;
      }
      assert sequences[..i] == sequences;
    }

    /** Feeding a chunk does exactly what the specification says, and nothing else. */
    method Process(data: Str)
      requires Valid()
      modifies this
      ensures Valid()
      ensures Model() == Read(old(Model()), data).0
      ensures emitted == old(emitted) + Read(old(Model()), data).1
      decreases |buffer| + |pasteBuffer| + |data|, 1
    {
      hide Read, ReadText, Absorb, Factor, Emit;
      if |data| == 0 && |buffer| == 0 {
        ReadNothing(Model());
        EmitDataSequence([]);
        return;
      }
      if pasteMode { ReadPasting(Model(), data); } else { ReadTyping(Model(), data); }
      buffer := buffer + data;
      if pasteMode {
        pasteBuffer := pasteBuffer + buffer;
        buffer := [];
        ClosePaste();
        return;
      }
      var startIndex := IndexOf(buffer, PASTE_START);
      if startIndex.Some? {
        ReadMarked(buffer, startIndex.value, pending);
        if startIndex.value > 0 {
          var sequences, _ := ExtractCompleteSequences(buffer[..startIndex.value]);
          EmitAll(sequences);
        } else {
          NothingToEmit(buffer[..startIndex.value], pending);
          assert emitted + [] == emitted;
        }
        ghost var before := emitted;
        pending := None;
        pasteMode := true;
        pasteBuffer := buffer[startIndex.value + |PASTE_START|..];
        buffer := [];
        ghost var rest := pasteBuffer;
        ClosePaste();
        Regroup3(old(emitted), Emit(old(pending), Factor((old(buffer) + data)[..startIndex.value]).sequences).1, Absorb(rest).1);
        return;
      }
      ReadUnmarked(buffer, pending);
      FactorIsASplit(buffer);
      var sequences, remainder := ExtractCompleteSequences(buffer);
      buffer := remainder;
      EmitAll(sequences);
    }

    /** Paste mode: hand over the pasted text and go on with what follows it, once the end marker is in. */
    method ClosePaste()
      requires pasteMode && buffer == [] && pending == None
      modifies this
      ensures Valid()
      ensures Model() == Absorb(old(pasteBuffer)).0
      ensures emitted == old(emitted) + Absorb(old(pasteBuffer)).1
      decreases |buffer| + |pasteBuffer|, 0
    {
      hide Absorb, Read, ReadText;
      var endIndex := IndexOf(pasteBuffer, PASTE_END);
      if endIndex.None? { AbsorbOpen(pasteBuffer); }
      if endIndex.Some? {
        AbsorbClosed(pasteBuffer, endIndex.value);
        var pasted := pasteBuffer[..endIndex.value];
        var remaining := pasteBuffer[endIndex.value + |PASTE_END|..];
        pasteMode := false;
        pasteBuffer := [];
        pending := None;
        emitted := emitted + [Paste(pasted)];
        if |remaining| > 0 {
          ReadFresh(remaining);
          Process(remaining);
        }
      }
    }

    /** The timer's way out: give up waiting and hand over the unfinished remainder. */
    method Flush() returns (sequences: seq<Str>)
      requires Valid()
      modifies this
      ensures Valid() && emitted == old(emitted)
      ensures sequences == if old(buffer) == [] then [] else [old(buffer)]
      ensures Model() == if old(buffer) == [] then old(Model()) else FRESH
    {
      if |buffer| == 0 { return []; }
      sequences := [buffer];
      buffer := [];
      pending := None;
    }

    method Clear()
      modifies this
      ensures Model() == FRESH && Valid() && emitted == old(emitted)
    {
      buffer, pasteMode, pasteBuffer, pending := [], false, [], None;
    }
  }
}
