/**
 * What each SGR code does (packages/tui/src/utils.ts:539-637), attribute by attribute, and that a code which switches an
 * attribute off is printed no more.
 */
module SgrMeaning {
  import opened AnsiScanner
  import opened AnsiStyle
  import opened Strings

  datatype Attribute = Bold | Dim | Italic | Underline | Blink | Inverse | Hidden | Strikethrough

  predicate Has(st: Style, a: Attribute) {
    match a
    case Bold => st.bold
    case Dim => st.dim
    case Italic => st.italic
    case Underline => st.underline
    case Blink => st.blink
    case Inverse => st.inverse
    case Hidden => st.hidden
    case Strikethrough => st.strikethrough
  }

  /** Section 8.3.117 of ECMA-48. */
  function OnCode(a: Attribute): nat {
    match a
    case Bold => 1
    case Dim => 2
    case Italic => 3
    case Underline => 4
    case Blink => 5
    case Inverse => 7
    case Hidden => 8
    case Strikethrough => 9
  }

  /** Bold and dim share theirs; 21 switches off bold alone, and 0 everything. */
  function OffCode(a: Attribute): nat {
    if a.Bold? then 22 else 20 + OnCode(a)
  }

  predicate Cancels(code: nat, a: Attribute) {
    code == 0 || code == OffCode(a) || (code == 21 && a.Bold?)
  }

  /** The colour of one ground after a code that is no extended colour. */
  function ColorAfter(before: Option<Str>, ground: Ground, code: nat): Option<Str> {
    if code == 0 || code == (if ground.Foreground? then 39 else 49) then None
    else if ground.Foreground? && (30 <= code <= 37 || 90 <= code <= 97) then Some(Decimal(code))
    else if ground.Background? && (40 <= code <= 47 || 100 <= code <= 107) then Some(Decimal(code))
    else before
  }

  /** What is on after a code below 30. */
  ghost predicate Switches(st: Style, u: Style, code: nat) {
    && (u.bold <==> code == 1 || (st.bold && code !in {0, 21, 22}))
    && (u.dim <==> code == 2 || (st.dim && code !in {0, 22}))
    && (u.italic <==> code == 3 || (st.italic && code !in {0, 23}))
    && (u.underline <==> code == 4 || (st.underline && code !in {0, 24}))
    && (u.blink <==> code == 5 || (st.blink && code !in {0, 25}))
    && (u.inverse <==> code == 7 || (st.inverse && code !in {0, 27}))
    && (u.hidden <==> code == 8 || (st.hidden && code !in {0, 28}))
    && (u.strikethrough <==> code == 9 || (st.strikethrough && code !in {0, 29}))
    && u.fg == (if code == 0 then None else st.fg) && u.bg == (if code == 0 then None else st.bg)
  }

  lemma CodesFrom0(st: Style)
    ensures Switches(st, SwitchOn(st, 0), 0)
    ensures Switches(st, SwitchOn(st, 1), 1)
  {}

  lemma CodesFrom2(st: Style)
    ensures Switches(st, SwitchOn(st, 2), 2)
    ensures Switches(st, SwitchOn(st, 3), 3)
  {}

  lemma CodesFrom4(st: Style)
    ensures Switches(st, SwitchOn(st, 4), 4)
    ensures Switches(st, SwitchOn(st, 5), 5)
  {}

  lemma CodesFrom7(st: Style)
    ensures Switches(st, SwitchOn(st, 7), 7)
    ensures Switches(st, SwitchOn(st, 8), 8)
  {}

  lemma CodeNine(st: Style)
    ensures Switches(st, SwitchOn(st, 9), 9)
  {}

  lemma CodesFrom21(st: Style)
    ensures Switches(st, SwitchOff(st, 21), 21)
    ensures Switches(st, SwitchOff(st, 22), 22)
  {}

  lemma CodesFrom23(st: Style)
    ensures Switches(st, SwitchOff(st, 23), 23)
    ensures Switches(st, SwitchOff(st, 24), 24)
  {}

  lemma CodesFrom25(st: Style)
    ensures Switches(st, SwitchOff(st, 25), 25)
    ensures Switches(st, SwitchOff(st, 27), 27)
  {}

  lemma CodesFrom28(st: Style)
    ensures Switches(st, SwitchOff(st, 28), 28)
    ensures Switches(st, SwitchOff(st, 29), 29)
  {}

  lemma CodeSix(st: Style)
    ensures Switches(st, SwitchOn(st, 6), 6)
  {
    assert SwitchOn(st, 6) == st;
    hide SwitchOn;
  }

  lemma OtherOffCodes(st: Style, code: nat)
    requires 10 <= code < 30 && code !in {21, 22, 23, 24, 25, 27, 28, 29}
    ensures Switches(st, SwitchOff(st, code), code)
  {
    assert SwitchOff(st, code) == st;
    hide SwitchOff;
  }

  lemma LowCodes(st: Style, code: nat)
    requires code < 10
    ensures Switches(st, SwitchOn(st, code), code)
  {
    hide SwitchOn, Switches;
    CodesFrom0(st);
    CodesFrom2(st);
    CodesFrom4(st);
    CodeSix(st);
    CodesFrom7(st);
    CodeNine(st);
    assert code in {0, 1, 2, 3, 4, 5, 6, 7, 8, 9};
  }

  lemma MiddleCodes(st: Style, code: nat)
    requires 10 <= code < 30
    ensures Switches(st, SwitchOff(st, code), code)
  {
    hide SwitchOff, Switches;
    CodesFrom21(st);
    CodesFrom23(st);
    CodesFrom25(st);
    CodesFrom28(st);
    if code !in {21, 22, 23, 24, 25, 27, 28, 29} { OtherOffCodes(st, code); }
  }

  /** What a code from 30 on does. */
  lemma HighCodes(st: Style, code: nat)
    requires code >= 30
    ensures ApplyCode(st, code) == st.(fg := ColorAfter(st.fg, Foreground, code), bg := ColorAfter(st.bg, Background, code))
  {
    hide Decimal, DecimalValue, AllDigits, SwitchOn, SwitchOff;
    var text := Decimal(code);
    if code == 39 {
      assert ColorAfter(st.fg, Foreground, code) == None && ColorAfter(st.bg, Background, code) == st.bg;
    } else if code == 49 {
      assert ColorAfter(st.fg, Foreground, code) == st.fg && ColorAfter(st.bg, Background, code) == None;
    } else if Foreground.IsBasic(code) {
      assert ColorAfter(st.fg, Foreground, code) == Some(text) && ColorAfter(st.bg, Background, code) == st.bg;
    } else if Background.IsBasic(code) {
      assert ColorAfter(st.fg, Foreground, code) == st.fg && ColorAfter(st.bg, Background, code) == Some(text);
    } else {
      assert ColorAfter(st.fg, Foreground, code) == st.fg && ColorAfter(st.bg, Background, code) == st.bg;
    }
  }

  lemma LowMeaning(st: Style, u: Style, code: nat, a: Attribute)
    requires Switches(st, u, code) && code < 30
    ensures Has(u, a) <==> code == OnCode(a) || (Has(st, a) && !Cancels(code, a))
    ensures u.fg == ColorAfter(st.fg, Foreground, code) && u.bg == ColorAfter(st.bg, Background, code)
  {
    hide Decimal;
  }

  lemma HighMeaning(st: Style, fg: Option<Str>, bg: Option<Str>, code: nat, a: Attribute)
    requires code >= 30
    ensures Has(st.(fg := fg, bg := bg), a) <==> code == OnCode(a) || (Has(st, a) && !Cancels(code, a))
  {}

  /** A code switches its attribute on, those it cancels off, sets or drops its colour, and changes nothing else. */
  lemma CodeChangesExactly(st: Style, code: nat, a: Attribute)
    ensures Has(ApplyCode(st, code), a) <==> code == OnCode(a) || (Has(st, a) && !Cancels(code, a))
    ensures ApplyCode(st, code).fg == ColorAfter(st.fg, Foreground, code)
    ensures ApplyCode(st, code).bg == ColorAfter(st.bg, Background, code)
    ensures ApplyCode(st, code).link == st.link
  {
    hide Decimal, DecimalValue, AllDigits, SwitchOn, SwitchOff, Has, Switches, ColorAfter, OnCode, Cancels;
    if code < 10 {
      LowCodes(st, code);
      LowMeaning(st, ApplyCode(st, code), code, a);
    } else if code < 30 {
      MiddleCodes(st, code);
      LowMeaning(st, ApplyCode(st, code), code, a);
    } else {
      hide ApplyCode;
      HighCodes(st, code);
      HighMeaning(st, ColorAfter(st.fg, Foreground, code), ColorAfter(st.bg, Background, code), code, a);
    }
  }

  /** Whatever stood before, an attribute switched on and then cancelled is off. */
  lemma OnThenOff(st: Style, a: Attribute, off: nat)
    requires Cancels(off, a)
    ensures Has(ApplyCode(st, OnCode(a)), a) && !Has(ApplyCode(ApplyCode(st, OnCode(a)), off), a)
  {
    hide ApplyCode, Has;
    CodeChangesExactly(st, OnCode(a), a);
    CodeChangesExactly(ApplyCode(st, OnCode(a)), off, a);
    assert off != OnCode(a);
  }

  // ------------------------------------------------------------------ sequences of codes

  function Decimals(codes: seq<nat>): seq<Str> {
    if codes == [] then [] else [Decimal(codes[0])] + Decimals(codes[1..])
  }

  function ApplyEach(codes: seq<nat>, st: Style): Style {
    if codes == [] then st else ApplyEach(codes[1..], ApplyCode(st, codes[0]))
  }

  lemma {:induction false} EachApplies(codes: seq<nat>, st: Style)
    requires forall n | n in codes :: n != 38 && n != 48
    ensures ApplySgr(SplitAll(Decimals(codes)), st) == ApplyEach(codes, st)
  {
    hide ApplySgr, ApplyCode, Decimal;
    if codes == [] {
      ApplyNothing(st);
    } else {
      assert codes[0] in codes && forall n | n in codes[1..] :: n in codes;
      FlagApplies(true, codes[0], Decimals(codes[1..]), st);
      assert Flag(true, codes[0]) == [Decimal(codes[0])];
      EachApplies(codes[1..], ApplyCode(st, codes[0]));
    }
  }

  lemma {:induction false} DecimalsAreSgrText(codes: seq<nat>)
    ensures forall c | c in Decimals(codes) :: IsSgrText(c)
  {
    if codes != [] {
      FlagIsSgrText(true, codes[0]);
      assert Flag(true, codes[0]) == [Decimal(codes[0])] && Decimal(codes[0]) in Flag(true, codes[0]);
      DecimalsAreSgrText(codes[1..]);
    }
  }

  /** The codes of one escape sequence act one after the other. */
  lemma CodesActInOrder(codes: seq<nat>, st: Style)
    requires codes != [] && forall n | n in codes :: n != 38 && n != 48
    ensures IsCode(PrintSgr(Decimals(codes)))
    ensures Process(PrintSgr(Decimals(codes)), st) == ApplyEach(codes, st)
  {
    hide Process, IsCode, ApplySgr, SplitAll, PrintSgr, IsSgrText;
    DecimalsAreSgrText(codes);
    EachApplies(codes, st);
    ProcessPrinted(Decimals(codes), st);
  }

  // ------------------------------------------------------------------ extended colours

  function GroundCode(ground: Ground): nat {
    if ground.Foreground? then 38 else 48
  }

  /** The parts of "38;5;n" or "38;2;r;g;b", and likewise for 48. */
  ghost predicate IsExtendedColor(parts: seq<Str>, ground: Ground) {
    && (forall p | p in parts :: p != [] && AllDigits(p))
    && |parts| > 1 && parts[0] == Decimal(GroundCode(ground))
    && ((|parts| == 3 && parts[1] == [0x35]) || (|parts| == 5 && parts[1] == [0x32]))
  }

  lemma {:induction false} DigitPartsStay(parts: seq<Str>)
    requires forall p | p in parts :: AllDigits(p)
    ensures SplitAll(parts) == parts
  {
    hide Split;
    if parts != [] {
      assert parts[0] in parts && SEMICOLON !in parts[0];
      assert forall p | p in parts[1..] :: p in parts;
      DigitPartsStay(parts[1..]);
    }
  }

  /** An extended colour is set whole, on its own ground, and nothing else changes. */
  lemma ExtendedColorIsSet(parts: seq<Str>, ground: Ground, st: Style)
    requires IsExtendedColor(parts, ground)
    ensures Process(PrintSgr(parts), st) == WithColor(st, ground, Join(parts, SEMICOLON))
  {
    hide Process, IsCode, ApplySgr, SplitAll, PrintSgr, Decimal, Join, ApplyCode;
    assert parts[0] in parts;
    var none: seq<Str> := [];
    forall p | p in parts
      ensures IsSgrText(p)
    {
      assert forall u | u in p :: IsDigit(u);
    }
    ProcessPrinted(parts, st);
    DigitPartsStay(parts);
    ExtendedApplies(parts, ground, none, st);
    ApplyNothing(WithColor(st, ground, Join(parts, SEMICOLON)));
    NothingSplit();
    assert parts + none == parts;
  }

  lemma NothingSplit()
    ensures SplitAll([]) == []
  {}

  // ------------------------------------------------------------------ printed no more

  lemma NoSemicolon(n: nat)
    ensures SEMICOLON !in Decimal(n)
  {
    assert forall u | u in Decimal(n) :: IsDigit(u);
  }

  /** No colour is printed as a single digit. */
  lemma ColorsAreNoFlags(c: Str, ground: Ground, n: nat)
    requires IsColor(c, ground) && n < 10
    ensures c != Decimal(n)
  {
    hide Decimal, Split;
    NoSemicolon(n);
    if SEMICOLON !in c {
      var m: nat :| ground.IsBasic(m) && c == Decimal(m);
      assert DecimalValue(Decimal(m)) == m && DecimalValue(Decimal(n)) == n;
    }
  }

  lemma PrintedIsOneOf(st: Style, c: Str)
    ensures c in SgrCodes(st) <==>
            || c in Flag(st.bold, 1) || c in Flag(st.dim, 2) || c in Flag(st.italic, 3) || c in Flag(st.underline, 4)
            || c in Flag(st.blink, 5) || c in Flag(st.inverse, 7) || c in Flag(st.hidden, 8) || c in Flag(st.strikethrough, 9)
            || c in Color(st.fg) || c in Color(st.bg)
  {
    hide Flag, Color;
  }

  lemma FlagHolds(on: bool, k: nat, n: nat)
    ensures Decimal(n) in Flag(on, k) <==> on && n == k
  {
    hide Decimal;
    assert DecimalValue(Decimal(n)) == n && DecimalValue(Decimal(k)) == k;
  }

  lemma ColorsHoldNoFlags(st: Style, n: nat)
    requires Coherent(st) && n < 10
    ensures Decimal(n) !in Color(st.fg) && Decimal(n) !in Color(st.bg)
  {
    hide Decimal, DecimalValue, AllDigits, IsColor, IsLink;
    if st.fg.Some? { ColorsAreNoFlags(st.fg.value, Foreground, n); }
    if st.bg.Some? { ColorsAreNoFlags(st.bg.value, Background, n); }
  }

  lemma FlagsHold(st: Style, n: nat)
    ensures Decimal(n) in Flag(st.bold, 1) <==> st.bold && n == 1
    ensures Decimal(n) in Flag(st.dim, 2) <==> st.dim && n == 2
    ensures Decimal(n) in Flag(st.italic, 3) <==> st.italic && n == 3
    ensures Decimal(n) in Flag(st.underline, 4) <==> st.underline && n == 4
    ensures Decimal(n) in Flag(st.blink, 5) <==> st.blink && n == 5
    ensures Decimal(n) in Flag(st.inverse, 7) <==> st.inverse && n == 7
    ensures Decimal(n) in Flag(st.hidden, 8) <==> st.hidden && n == 8
    ensures Decimal(n) in Flag(st.strikethrough, 9) <==> st.strikethrough && n == 9
  {
    hide Decimal, DecimalValue, AllDigits, Flag;
    FlagHolds(st.bold, 1, n);
    FlagHolds(st.dim, 2, n);
    FlagHolds(st.italic, 3, n);
    FlagHolds(st.underline, 4, n);
    FlagHolds(st.blink, 5, n);
    FlagHolds(st.inverse, 7, n);
    FlagHolds(st.hidden, 8, n);
    FlagHolds(st.strikethrough, 9, n);
  }

  /** Exactly the attributes that are on are among the printed codes. */
  lemma PrintedExactlyWhenOn(st: Style, a: Attribute)
    requires Coherent(st)
    ensures Decimal(OnCode(a)) in SgrCodes(st) <==> Has(st, a)
  {
    hide Decimal, DecimalValue, AllDigits, IsColor, IsLink, Flag, SgrCodes, Color;
    ColorsHoldNoFlags(st, OnCode(a));
    var n := OnCode(a);
    PrintedIsOneOf(st, Decimal(n));
    FlagsHold(st, n);
    match a {
      case Bold =>
      case Dim =>
      case Italic =>
      case Underline =>
      case Blink =>
      case Inverse =>
      case Hidden =>
      case Strikethrough =>
    }
  }

  lemma OneCodeActs(n: nat, st: Style)
    requires n != 38 && n != 48
    ensures IsCode(PrintSgr([Decimal(n)])) && Process(PrintSgr([Decimal(n)]), st) == ApplyCode(st, n)
  {
    hide Decimal, Process, PrintSgr, ApplyCode, IsCode;
    var one: seq<nat> := [n];
    var none: seq<nat> := one[1..];
    assert none == [] && Decimals(none) == [];
    assert Decimals(one) == [Decimal(n)];
    assert ApplyEach(one, st) == ApplyEach(none, ApplyCode(st, n));
    CodesActInOrder(one, st);
  }

  /** After the code that cancels it, an attribute is off and printed no more; every other one is printed as before. */
  lemma CancelledIsPrintedNoMore(st: Style, off: nat, a: Attribute)
    requires Coherent(st) && 0 < off < 30
    ensures var u := Process(PrintSgr([Decimal(off)]), st);
            && Coherent(u)
            && (Cancels(off, a) ==> Decimal(OnCode(a)) !in SgrCodes(u))
            && (!Cancels(off, a) && off >= 10 ==> (Decimal(OnCode(a)) in SgrCodes(u) <==> Decimal(OnCode(a)) in SgrCodes(st)))
  {
    hide Decimal, Process, PrintSgr, SgrCodes, Coherent, ApplyCode, IsCode, Has;
    OneCodeActs(off, st);
    ProcessKeepsCoherent(PrintSgr([Decimal(off)]), st);
    CodeChangesExactly(st, off, a);
    PrintedExactlyWhenOn(st, a);
    PrintedExactlyWhenOn(Process(PrintSgr([Decimal(off)]), st), a);
  }
}
