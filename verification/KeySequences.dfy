/**
 * Which sequences a terminal sends (packages/tui/src/stdin-buffer.ts:30-188), written by shape: the parser's atoms are
 * exactly these, each is emitted as soon as its last unit has arrived, and only the echo of a Kitty report is dropped.
 */
module KeySequences {
  import opened StdinBuffer
  import opened Strings

  const LETTER_BIG_M: Unit := 0x4d
  const LETTER_SMALL_M: Unit := 0x6d
  const LETTER_SMALL_U: Unit := 0x75
  const LESS: Unit := 0x3c

  // ------------------------------------------------------------------ shapes

  predicate InFinals(u: Unit) {
    0x40 <= u <= 0x7e
  }

  /** "ESC [", then units that end nothing, then one that does; `<` and `M` begin mouse reports. */
  predicate IsCsiKey(a: Str) {
    && |a| >= 3 && a[1] == 0x5b && a[2] != LESS && a[2] != LETTER_BIG_M
    && (forall i | 2 <= i < |a| - 1 :: !InFinals(a[i]))
    && InFinals(a[|a| - 1])
  }

  /** "ESC [ M" and three units. */
  predicate IsOldMouse(a: Str) {
    |a| == 6 && a[1] == 0x5b && a[2] == LETTER_BIG_M
  }

  /** "ESC [ < p ; q ; r" and `M` or `m`, for three decimal numbers. */
  ghost predicate IsSgrMouse(a: Str) {
    exists p: Str, q: Str, r: Str, end: Unit ::
      IsNumber(p) && IsNumber(q) && IsNumber(r) && (end == LETTER_BIG_M || end == LETTER_SMALL_M) && a == SgrMouse(p, q, r, end)
  }

  predicate IsNumber(s: Str) {
    s != [] && AllDigits(s)
  }

  function ThreeFields(p: Str, q: Str, r: Str): Str {
    p + [SEMICOLON] + (q + [SEMICOLON] + r)
  }

  function SgrMouse(p: Str, q: Str, r: Str, end: Unit): Str {
    [ESC, 0x5b, LESS] + ThreeFields(p, q, r) + [end]
  }

  /** "ESC \" stands at `i`. */
  predicate StandsSt(a: Str, i: nat) {
    i + 1 < |a| && a[i] == ESC && a[i + 1] == BACKSLASH
  }

  /** "ESC ]" up to its first BEL or ST. */
  predicate IsOscKey(a: Str) {
    && |a| >= 3 && a[1] == 0x5d
    && (a[|a| - 1] == BEL || (|a| >= 4 && StandsSt(a, |a| - 2)))
    && forall i | 2 <= i < |a| - 1 :: a[i] != BEL && (i < |a| - 2 ==> !StandsSt(a, i))
  }

  /** "ESC P" or "ESC _" up to its first ST. */
  predicate IsStringKey(a: Str) {
    && |a| >= 4 && (a[1] == 0x50 || a[1] == 0x5f) && StandsSt(a, |a| - 2)
    && forall i | 2 <= i < |a| - 2 :: !StandsSt(a, i)
  }

  /** "ESC O" and one unit. */
  predicate IsSs3Key(a: Str) {
    |a| == 3 && a[1] == 0x4f
  }

  /** ESC and one unit that opens none of the above. */
  predicate IsMetaKey(a: Str) {
    |a| == 2 && a[1] !in {0x5b, 0x5d, 0x50, 0x5f, 0x4f}
  }

  ghost predicate IsKeySequence(a: Str) {
    if a == [] then false
    else if a[0] != ESC then |a| == 1
    else IsCsiKey(a) || IsOldMouse(a) || IsSgrMouse(a) || IsOscKey(a) || IsStringKey(a) || IsSs3Key(a) || IsMetaKey(a)
  }

  // ------------------------------------------------------------------ atoms are key sequences

  lemma SgrMouseSplits(a: Str)
    requires |a| >= 3 && a[0] == ESC && a[1] == 0x5b && a[2] == LESS
    ensures IsSgrMouse(a) <==> IsMouseReport(a[2..])
  {
    hide SgrMouse, IsMouseReport, IsNumber;
    if IsSgrMouse(a) {
      var p: Str, q: Str, r: Str, end: Unit :|
        IsNumber(p) && IsNumber(q) && IsNumber(r) && (end == LETTER_BIG_M || end == LETTER_SMALL_M) && a == SgrMouse(p, q, r, end);
      SgrMouseIsReport(p, q, r, end);
    }
    if IsMouseReport(a[2..]) { ReportIsSgrMouse(a); }
  }

  lemma SgrMouseIsReport(p: Str, q: Str, r: Str, end: Unit)
    requires IsNumber(p) && IsNumber(q) && IsNumber(r) && (end == LETTER_BIG_M || end == LETTER_SMALL_M)
    ensures IsMouseReport(SgrMouse(p, q, r, end)[2..])
  {
    hide Split, ThreeFields;
    var payload := SgrMouse(p, q, r, end)[2..];
    ThreeNumbersSplit(p, q, r);
    assert payload == [LESS] + ThreeFields(p, q, r) + [end];
    assert payload[1..|payload| - 1] == ThreeFields(p, q, r);
  }

  lemma ReportIsSgrMouse(a: Str)
    requires |a| >= 3 && a[0] == ESC && a[1] == 0x5b && a[2] == LESS && IsMouseReport(a[2..])
    ensures IsSgrMouse(a)
  {
    hide Split, ThreeFields, Join;
    var payload := a[2..];
    var inner, end := payload[1..|payload| - 1], payload[|payload| - 1];
    var parts := Split(inner, SEMICOLON);
    JoinOfSplit(inner, SEMICOLON);
    JoinOfThree(parts);
    assert a == [ESC, 0x5b, LESS] + inner + [end];
    assert a == SgrMouse(parts[0], parts[1], parts[2], end);
  }

  lemma JoinOfThree(parts: seq<Str>)
    requires |parts| == 3
    ensures Join(parts, SEMICOLON) == ThreeFields(parts[0], parts[1], parts[2])
  {
    assert parts[1..][0] == parts[1] && parts[1..][1..] == [parts[2]];
    assert Join([parts[2]], SEMICOLON) == parts[2];
  }

  lemma ThreeNumbersSplit(p: Str, q: Str, r: Str)
    requires AllDigits(p) && AllDigits(q) && AllDigits(r)
    ensures Split(ThreeFields(p, q, r), SEMICOLON) == [p, q, r]
  {
    hide Split;
    var parts := [p, q, r];
    DigitsOnly(p);
    DigitsOnly(q);
    DigitsOnly(r);
    SplitOfJoin(parts, SEMICOLON);
    JoinOfThree(parts);
  }

  lemma DigitsOnly(s: Str)
    requires AllDigits(s)
    ensures SEMICOLON !in s && COLON !in s
  {}

  /** Up to its last unit, a mouse report waits for more. */
  lemma SgrMouseWaits(a: Str, k: nat)
    requires IsSgrMouse(a) && 1 <= k < |a|
    ensures SequenceStatus(a[..k]) != Complete
  {
    hide SgrMouse, IsNumber, IsMouseReport;
    var p: Str, q: Str, r: Str, end: Unit :|
      IsNumber(p) && IsNumber(q) && IsNumber(r) && (end == LETTER_BIG_M || end == LETTER_SMALL_M) && a == SgrMouse(p, q, r, end);
    NoFinalInside(p, q, r, end);
    if k >= 3 { assert a[..k][2..][k - 3] == a[k - 1]; }
  }

  lemma NoFinalInside(p: Str, q: Str, r: Str, end: Unit)
    requires IsNumber(p) && IsNumber(q) && IsNumber(r)
    ensures var a := SgrMouse(p, q, r, end);
            && |a| >= 9 && a[0] == ESC && a[1] == 0x5b && a[2] == LESS && a[|a| - 1] == end
            && forall i | 2 <= i < |a| - 1 :: !InFinals(a[i])
  {}

  lemma CsiStatusOf(a: Str)
    requires |a| >= 3 && a[0] == ESC && a[1] == 0x5b && a[2] != LETTER_BIG_M
    ensures SequenceStatus(a) == Complete <==>
            InFinals(a[|a| - 1]) && (a[2] == LESS ==> IsSgrMouse(a))
  {
    hide IsMouseReport, IsSgrMouse;
    var payload := a[2..];
    assert payload[0] == a[2] && payload[|payload| - 1] == a[|a| - 1];
    if a[2] == LESS { SgrMouseSplits(a); }
  }

  lemma SgrMouseEnds(a: Str)
    requires IsSgrMouse(a)
    ensures |a| >= 9 && a[0] == ESC && a[1] == 0x5b && a[2] == LESS && InFinals(a[|a| - 1])
  {
    hide SgrMouse, IsNumber;
    var p: Str, q: Str, r: Str, end: Unit :|
      IsNumber(p) && IsNumber(q) && IsNumber(r) && (end == LETTER_BIG_M || end == LETTER_SMALL_M) && a == SgrMouse(p, q, r, end);
    NoFinalInside(p, q, r, end);
  }

  lemma CsiAtom(a: Str)
    requires |a| >= 2 && a[0] == ESC && a[1] == 0x5b
    ensures IsAtom(a) <==> IsCsiKey(a) || IsOldMouse(a) || IsSgrMouse(a)
  {
    hide SequenceStatus, IsSgrMouse;
    CsiTooShort(a);
    if |a| >= 3 && a[2] == LETTER_BIG_M {
      OldMouseAtom(a);
    } else if |a| >= 3 {
      CsiStatusOf(a);
      if a[2] == LESS {
        if IsSgrMouse(a) {
          SgrMouseEnds(a);
          forall k | 1 <= k < |a| ensures SequenceStatus(a[..k]) != Complete { SgrMouseWaits(a, k); }
        }
      } else {
        forall k | 3 <= k < |a|
          ensures SequenceStatus(a[..k]) == Complete <==> InFinals(a[k - 1])
        {
          CsiStatusOf(a[..k]);
        }
        ShortWaits(a);
        if IsAtom(a) {
          forall i | 2 <= i < |a| - 1
            ensures !InFinals(a[i])
          {
            assert SequenceStatus(a[..i + 1]) != Complete;
          }
        }
      }
    }
  }

  lemma CsiTooShort(a: Str)
    requires |a| >= 2 && a[0] == ESC && a[1] == 0x5b
    ensures |a| == 2 ==> SequenceStatus(a) != Complete
    ensures |a| == 2 || a[2] != LESS ==> !IsSgrMouse(a)
  {
    hide IsSgrMouse;
    if IsSgrMouse(a) { SgrMouseEnds(a); }
  }

  /** A lone ESC waits, and so do two units that open a longer sequence. */
  lemma ShortWaits(a: Str)
    requires |a| >= 2 && a[0] == ESC
    ensures SequenceStatus(a[..1]) != Complete
    ensures a[1] in {0x5b, 0x5d, 0x50, 0x5f, 0x4f} ==> SequenceStatus(a[..2]) != Complete
  {}

  lemma OldMouseAtom(a: Str)
    requires |a| >= 3 && a[0] == ESC && a[1] == 0x5b && a[2] == LETTER_BIG_M
    ensures IsAtom(a) <==> |a| == 6
  {
    forall k | 1 <= k <= |a|
        ensures SequenceStatus(a[..k]) == Complete <==> k >= 6
    {}
    assert a[..|a|] == a;
    if |a| > 6 { assert SequenceStatus(a[..6]) == Complete; }
  }

  predicate EndsInSt(a: Str) {
    |a| >= 2 && StandsSt(a, |a| - 2)
  }

  lemma StringStatusOf(a: Str)
    requires |a| >= 2 && a[0] == ESC
    ensures a[1] == 0x5d ==> (SequenceStatus(a) == Complete <==> EndsInSt(a) || a[|a| - 1] == BEL)
    ensures a[1] == 0x50 || a[1] == 0x5f ==> (SequenceStatus(a) == Complete <==> EndsInSt(a))
  {
    assert a[|a| - 2..] == [a[|a| - 2], a[|a| - 1]] && a[|a| - 1..] == [a[|a| - 1]];
  }

  lemma StringAtom(a: Str)
    requires |a| >= 2 && a[0] == ESC && a[1] in {0x5d, 0x50, 0x5f}
    ensures IsAtom(a) <==> IsOscKey(a) || IsStringKey(a)
  {
    hide SequenceStatus;
    StringStatusOf(a);
    ShortWaits(a);
    forall k | 2 <= k < |a|
      ensures a[1] == 0x5d ==> (SequenceStatus(a[..k]) == Complete <==> StandsSt(a, k - 2) || a[k - 1] == BEL)
      ensures a[1] != 0x5d ==> (SequenceStatus(a[..k]) == Complete <==> StandsSt(a, k - 2))
    {
      StringStatusOf(a[..k]);
    }
    if IsAtom(a) {
      forall i | 2 <= i < |a| - 1
        ensures a[1] == 0x5d ==> a[i] != BEL
        ensures i < |a| - 2 ==> !StandsSt(a, i)
      {
        assert SequenceStatus(a[..i + 1]) != Complete;
        if i < |a| - 2 { assert SequenceStatus(a[..i + 2]) != Complete; }
      }
    }
  }

  lemma OtherAtom(a: Str)
    requires |a| >= 2 && a[0] == ESC && a[1] !in {0x5b, 0x5d, 0x50, 0x5f}
    ensures IsAtom(a) <==> IsSs3Key(a) || IsMetaKey(a)
  {
    forall k | 1 <= k <= |a|
      ensures SequenceStatus(a[..k]) == Complete <==> k >= if a[1] == 0x4f then 3 else 2
    {}
    assert a[..|a|] == a;
    var n := if a[1] == 0x4f then 3 else 2;
    if |a| > n { assert SequenceStatus(a[..n]) == Complete; }
  }

  /** The parser's atoms are exactly the key sequences. */
  lemma AtomExactlyWhen(a: Str)
    ensures IsAtom(a) <==> IsKeySequence(a)
  {
    hide IsSgrMouse;
    if |a| >= 2 && a[0] == ESC {
      hide SequenceStatus;
      if a[1] == 0x5b {
        CsiAtom(a);
      } else if a[1] in {0x5d, 0x50, 0x5f} {
        StringAtom(a);
        NoSgrMouse(a);
      } else {
        OtherAtom(a);
        NoSgrMouse(a);
      }
    } else {
      NoSgrMouse(a);
    }
  }

  lemma NoSgrMouse(a: Str)
    requires |a| < 2 || a[0] != ESC || a[1] != 0x5b
    ensures !IsSgrMouse(a)
  {
    hide IsSgrMouse;
    if IsSgrMouse(a) { SgrMouseEnds(a); }
  }

  /** What waits for more input: an escape sequence that is not a key sequence yet. */
  ghost predicate IsWaiting(r: Str) {
    r == [] || (r[0] == ESC && forall k | 1 <= k <= |r| :: !IsKeySequence(r[..k]))
  }

  lemma WaitingExactlyWhen(r: Str)
    ensures IsUnfinished(r) <==> IsWaiting(r)
  {
    hide IsKeySequence, SequenceStatus, FirstEnd;
    forall k | 1 <= k <= |r|
      ensures IsAtom(r[..k]) <==> IsKeySequence(r[..k])
    {
      AtomExactlyWhen(r[..k]);
    }
    if r != [] && r[0] == ESC && FirstEnd(r, 1).Some? {
      HeadIsAtom(r, FirstEnd(r, 1).value);
    }
  }

  /** The parser splits what arrives into key sequences and what waits for more, and there is only one such split. */
  lemma SplitIntoKeys(s: Str, sequences: seq<Str>, remainder: Str)
    ensures Factor(s) == Factored(sequences, remainder)
       <==> Flatten(sequences) + remainder == s
            && (forall a | a in sequences :: IsKeySequence(a))
            && IsWaiting(remainder)
  {
    hide Factor, IsAtom, IsKeySequence, IsUnfinished, IsWaiting;
    FactorIsTheMinimalSplit(s, sequences, remainder);
    WaitingExactlyWhen(remainder);
    forall a | a in sequences
      ensures IsAtom(a) <==> IsKeySequence(a)
    {
      AtomExactlyWhen(a);
    }
  }

  /** A key sequence that arrives on an idle parser is emitted at once, whole, and leaves the parser idle. */
  lemma KeyIsReadAtOnce(pending: Option<nat>, a: Str)
    requires IsKeySequence(a) && IndexOf(a, PASTE_START) == None
    requires |a| != 1 || pending != Some(a[0])
    ensures Read(State([], false, [], pending), a) == (State([], false, [], KittyPrintable(a)), [Data(a)])
  {
    hide IsKeySequence, KittyPrintable, Absorb, Factor, IndexOf;
    var st, one := State([], false, [], pending), [a];
    SplitIntoKeys(a, one, []);
    WaitsForNothing();
    assert Flatten(one) + [] == a by { assert one[1..] == [] && a + [] + [] == a; Flattened(a); }
    assert [] + a == a && a != [] by { KeyIsSomething(a); }
    EmitSingle(pending, a);
  }

  lemma WaitsForNothing()
    ensures IsWaiting([])
  {}

  lemma KeyIsSomething(a: Str)
    requires IsKeySequence(a)
    ensures a != []
  {}

  lemma Flattened(a: Str)
    ensures Flatten([a]) == a
  {
    var none: seq<Str> := [a][1..];
    assert none == [] && a + [] == a;
  }

  lemma EmitSingle(pending: Option<nat>, a: Str)
    ensures Emit(pending, [a]) == EmitOne(pending, a)
  {
    hide EmitOne;
    var none: seq<Str> := [a][1..];
    assert none == [] && EmitOne(pending, a).1 + [] == EmitOne(pending, a).1;
  }

  // ------------------------------------------------------------------ the echo of Kitty reports

  /** "ESC [ n u", with up to two further fields: the shifted key, which may be missing, and the base-layout key. */
  ghost predicate IsKittyReport(s: Str, n: nat) {
    exists code: Str, shifted: Str, base: Str :: IsReportOf(s, n, code, shifted, base)
  }

  predicate IsReportOf(s: Str, n: nat, code: Str, shifted: Str, base: Str) {
    && IsNumber(code) && DecimalValue(code) == n && n >= 32 && AllDigits(shifted) && AllDigits(base)
    && (|| s == KittyReport(code)
        || s == KittyReport(code + [COLON] + shifted)
        || (base != [] && s == KittyReport(code + [COLON] + (shifted + [COLON] + base))))
  }

  function KittyReport(fields: Str): Str {
    [ESC, 0x5b] + fields + [LETTER_SMALL_U]
  }

  lemma FieldsOf(s: Str, fields: Str)
    requires s == KittyReport(fields)
    ensures |s| >= 3 && s[0] == ESC && s[1] == 0x5b && s[|s| - 1] == LETTER_SMALL_U && s[2..|s| - 1] == fields
  {}

  lemma SplitOne(code: Str)
    requires IsNumber(code)
    ensures Split(code, COLON) == [code]
  {
    hide Split;
    DigitsOnly(code);
  }

  lemma SplitTwo(code: Str, shifted: Str)
    requires AllDigits(code) && AllDigits(shifted)
    ensures Split(code + [COLON] + shifted, COLON) == [code, shifted]
  {
    hide Split;
    DigitsOnly(code);
    DigitsOnly(shifted);
    SplitConcat(code, shifted, COLON);
  }

  lemma SplitThree(code: Str, shifted: Str, base: Str)
    requires AllDigits(code) && AllDigits(shifted) && AllDigits(base)
    ensures Split(code + [COLON] + (shifted + [COLON] + base), COLON) == [code, shifted, base]
  {
    hide Split;
    DigitsOnly(code);
    SplitTwo(shifted, base);
    SplitConcat(code, shifted + [COLON] + base, COLON);
  }

  lemma ReportIsKitty(s: Str, n: nat, code: Str, shifted: Str, base: Str)
    requires IsReportOf(s, n, code, shifted, base)
    ensures KittyPrintable(s) == Some(n)
  {
    hide Split, KittyReport, KittyPrintable, DecimalValue;
    if s == KittyReport(code) {
      SplitOne(code);
      KittyFrom(s, code, [code]);
    } else if s == KittyReport(code + [COLON] + shifted) {
      SplitTwo(code, shifted);
      KittyFrom(s, code + [COLON] + shifted, [code, shifted]);
    } else {
      SplitThree(code, shifted, base);
      KittyFrom(s, code + [COLON] + (shifted + [COLON] + base), [code, shifted, base]);
    }
  }

  lemma KittyFrom(s: Str, text: Str, fields: seq<Str>)
    requires s == KittyReport(text) && Split(text, COLON) == fields && 1 <= |fields| <= 3
    requires IsNumber(fields[0]) && DecimalValue(fields[0]) >= 32
    requires |fields| > 1 ==> AllDigits(fields[1])
    requires |fields| > 2 ==> IsNumber(fields[2])
    ensures KittyPrintable(s) == Some(DecimalValue(fields[0]))
  {
    hide Split;
    FieldsOf(s, text);
  }

  lemma KittyIsReport(s: Str)
    requires KittyPrintable(s).Some?
    ensures IsKittyReport(s, KittyPrintable(s).value)
  {
    hide Split, Join;
    var inner := s[2..|s| - 1];
    var fields := Split(inner, COLON);
    assert s == KittyReport(inner);
    JoinOfSplit(inner, COLON);
    JoinOfFields(fields);
    var n := KittyPrintable(s).value;
    if |fields| == 1 {
      assert IsReportOf(s, n, fields[0], [], []);
    } else if |fields| == 2 {
      assert IsReportOf(s, n, fields[0], fields[1], []);
    } else {
      assert IsReportOf(s, n, fields[0], fields[1], fields[2]);
    }
  }

  lemma JoinOfFields(parts: seq<Str>)
    ensures |parts| == 1 ==> Join(parts, COLON) == parts[0]
    ensures |parts| == 2 ==> Join(parts, COLON) == parts[0] + [COLON] + parts[1]
    ensures |parts| == 3 ==> Join(parts, COLON) == parts[0] + [COLON] + (parts[1] + [COLON] + parts[2])
  {
    if |parts| == 2 { assert parts[1..] == [parts[1]]; }
    if |parts| == 3 { assert parts[1..] == [parts[1], parts[2]] && [parts[1], parts[2]][1..] == [parts[2]]; }
  }

  lemma KittyExactlyWhen(s: Str, n: nat)
    ensures KittyPrintable(s) == Some(n) <==> IsKittyReport(s, n)
  {
    hide KittyPrintable, IsReportOf;
    if KittyPrintable(s).Some? { KittyIsReport(s); }
    if IsKittyReport(s, n) {
      var code, shifted, base :| IsReportOf(s, n, code, shifted, base);
      ReportIsKitty(s, n, code, shifted, base);
    }
  }

  /** The `i`-th sequence is the one character that the report before it already told. */
  ghost predicate IsEcho(sequences: seq<Str>, i: nat)
    requires i < |sequences|
  {
    i > 0 && |sequences[i]| == 1 && IsKittyReport(sequences[i - 1], sequences[i][0])
  }

  ghost function WithoutEchoes(sequences: seq<Str>, n: nat): seq<Event>
    requires n <= |sequences|
  {
    if n == 0 then []
    else WithoutEchoes(sequences, n - 1) + if IsEcho(sequences, n - 1) then [] else [Data(sequences[n - 1])]
  }

  /** Every sequence is emitted, in order, except the echo of a Kitty report. */
  lemma {:induction false} AllButEchoesAreEmitted(sequences: seq<Str>, n: nat)
    requires n <= |sequences|
    ensures Emit(None, sequences[..n]).1 == WithoutEchoes(sequences, n)
    ensures Emit(None, sequences[..n]).0 == if n == 0 then None else KittyPrintable(sequences[n - 1])
    decreases n
  {
    hide KittyPrintable, IsKittyReport, Emit;
    if n == 0 {
      EmitNone();
    } else {
      var x := sequences[n - 1];
      AllButEchoesAreEmitted(sequences, n - 1);
      assert sequences[..n] == sequences[..n - 1] + [x];
      EmitAppend(None, sequences[..n - 1], [x]);
      EmitSingle(Emit(None, sequences[..n - 1]).0, x);
      if |x| == 1 {
        if n > 1 { KittyExactlyWhen(sequences[n - 2], x[0]); }
        ShortIsNoReport(x);
      }
    }
  }

  lemma EmitNone()
    ensures Emit(None, []) == (None, [])
  {}

  lemma ShortIsNoReport(x: Str)
    requires |x| == 1
    ensures KittyPrintable(x) == None
  {}
}
