/**
 * The SGR and hyperlink tracker (packages/tui/src/utils.ts:459-718): a parser of escape sequences into a style, a printer
 * of styles as escape sequences, and the proof that reading what was printed gives the style back.
 */
module AnsiStyle {
  import opened AnsiScanner
  import opened Strings

  const LETTER_M: Unit := 0x6d
  const DIGIT_0: Unit := 0x30
  const TWO: Str := [0x32]
  const FIVE: Str := [0x35]

  /** "ESC [" */
  const CSI: Str := [0x1b, 0x5b]

  /** "ESC ] 8 ;" */
  const OSC8: Str := [0x1b, 0x5d, 0x38, 0x3b]

  // ------------------------------------------------------------------ hyperlinks

  datatype Terminator = Bel | StringTerminator {
    function Text(): (s: Str)
      ensures 1 <= |s| <= 2
    {
      if Bel? then [BEL] else [ESC, BACKSLASH]
    }
  }

  datatype Hyperlink = Hyperlink(params: Str, url: Str, terminator: Terminator)

  datatype Osc8 = NotALink | Close | Open(link: Hyperlink)

  function Osc8Body(code: Str, terminator: Terminator): Str {
    var tail := |terminator.Text()|;
    if |code| <= |OSC8| + tail then [] else code[|OSC8|..|code| - tail]
  }

  function ParseOsc8(code: Str): Osc8 {
    if !StartsWith(code, OSC8) then NotALink
    else
      var terminator := if EndsWith(code, [BEL]) then Bel else StringTerminator;
      var body := Osc8Body(code, terminator);
      match IndexOf(body, [SEMICOLON])
      case None => NotALink
      case Some(separator) =>
        var params, url := body[..separator], body[separator + 1..];
        if url == [] then Close else Open(Hyperlink(params, url, terminator))
  }

  function FormatOsc8(link: Hyperlink): Str {
    OSC8 + link.params + [SEMICOLON] + link.url + link.terminator.Text()
  }

  function FormatOsc8Close(terminator: Terminator): Str {
    OSC8 + [SEMICOLON] + terminator.Text()
  }

  // ------------------------------------------------------------------ styles

  datatype Style = Style(
    bold: bool, dim: bool, italic: bool, underline: bool, blink: bool, inverse: bool, hidden: bool, strikethrough: bool,
    fg: Option<Str>, bg: Option<Str>, link: Option<Hyperlink>)

  const BLANK := Style(false, false, false, false, false, false, false, false, None, None, None)

  /** SGR reset does not touch the hyperlink. */
  function Reset(st: Style): Style {
    BLANK.(link := st.link)
  }

  /** `Number.parseInt(part, 10)` on a run of digits; empty parts are NaN. */
  function ParamValue(part: Str): Option<nat> {
    if part != [] && AllDigits(part) then Some(DecimalValue(part)) else None
  }

  datatype Ground = Foreground | Background {
    predicate IsBasic(n: nat) {
      if Foreground? then 30 <= n <= 37 || 90 <= n <= 97 else 40 <= n <= 47 || 100 <= n <= 107
    }
  }

  function WithColor(st: Style, ground: Ground, color: Str): Style {
    if ground.Foreground? then st.(fg := Some(color)) else st.(bg := Some(color))
  }

  /** One standard SGR code (section 8.3.117 of ECMA-48, as far as the tracker follows it). */
  function ApplyCode(st: Style, code: nat): (r: Style)
    ensures r.link == st.link
    ensures r.fg == st.fg || r.fg == None || (Foreground.IsBasic(code) && r.fg == Some(Decimal(code)))
    ensures r.bg == st.bg || r.bg == None || (Background.IsBasic(code) && r.bg == Some(Decimal(code)))
  {
    if code < 10 then SwitchOn(st, code)
    else if code < 30 then SwitchOff(st, code)
    else if code == 39 then st.(fg := None)
    else if code == 49 then st.(bg := None)
    else if Foreground.IsBasic(code) then st.(fg := Some(Decimal(code)))
    else if Background.IsBasic(code) then st.(bg := Some(Decimal(code)))
    else st
  }

  function SwitchOn(st: Style, code: nat): (r: Style)
    ensures r.link == st.link && (r.fg == st.fg || r.fg == None) && (r.bg == st.bg || r.bg == None)
  {
    match code
    case 0 => Reset(st)
    case 1 => st.(bold := true)
    case 2 => st.(dim := true)
    case 3 => st.(italic := true)
    case 4 => st.(underline := true)
    case 5 => st.(blink := true)
    case 7 => st.(inverse := true)
    case 8 => st.(hidden := true)
    case 9 => st.(strikethrough := true)
    case _ => st
  }

  function SwitchOff(st: Style, code: nat): (r: Style)
    ensures r.link == st.link && r.fg == st.fg && r.bg == st.bg
  {
    match code
    case 21 => st.(bold := false)
    case 22 => st.(bold := false, dim := false)
    case 23 => st.(italic := false)
    case 24 => st.(underline := false)
    case 25 => st.(blink := false)
    case 27 => st.(inverse := false)
    case 28 => st.(hidden := false)
    case 29 => st.(strikethrough := false)
    case _ => st
  }

  /** How many parts an extended colour at the head of `parts` takes: three, five, or none if there is no such colour. */
  function ExtendedLength(parts: seq<Str>): (n: nat)
    requires parts != []
    ensures n <= |parts| && (n == 0 || n == 3 || n == 5)
  {
    if |parts| >= 3 && parts[1] == FIVE then 3
    else if |parts| >= 5 && parts[1] == TWO then 5
    else 0
  }

  function ExtendedGround(part: Str): Option<Ground> {
    if ParamValue(part) == Some(38) then Some(Foreground)
    else if ParamValue(part) == Some(48) then Some(Background)
    else None
  }

  predicate StartsExtended(parts: seq<Str>) {
    parts != [] && ExtendedGround(parts[0]).Some? && ExtendedLength(parts) > 0
  }

  /** What the first part (or the colour at the head) does, and how many parts it takes. */
  function HeadEffect(parts: seq<Str>, st: Style): (Style, nat)
    requires parts != []
  {
    if StartsExtended(parts) then
      var n := ExtendedLength(parts);
      (WithColor(st, ExtendedGround(parts[0]).value, Join(parts[..n], SEMICOLON)), n)
    else
      match ParamValue(parts[0])
      case None => (st, 1)
      case Some(code) => (ApplyCode(st, code), 1)
  }

  function ApplySgr(parts: seq<Str>, st: Style): Style
    decreases |parts|
  {
    if parts == [] then st
    else
      var head := HeadEffect(parts, st);
      ApplySgr(parts[head.1..], head.0)
  }

  predicate IsSgrUnit(u: Unit) {
    IsDigit(u) || u == SEMICOLON
  }

  /** The end of the run of digits and semicolons at `j`. */
  function RunEnd(s: Str, j: nat): (end: nat)
    requires j <= |s|
    ensures j <= end <= |s|
    ensures forall k | j <= k < end :: IsSgrUnit(s[k])
    ensures end < |s| ==> !IsSgrUnit(s[end])
    decreases |s| - j
  {
    if j < |s| && IsSgrUnit(s[j]) then RunEnd(s, j + 1) else j
  }

  /** The capture of the first match of `/\x1b\[([\d;]*)m/` at or after `i`. */
  function SgrParams(code: Str, i: nat): (r: Option<Str>)
    ensures r.Some? ==> forall u | u in r.value :: IsSgrUnit(u)
    decreases |code| - i
  {
    if i + 2 > |code| then None
    else
      var end := RunEnd(code, i + 2);
      if code[i..i + 2] == CSI && end < |code| && code[end] == LETTER_M then Some(code[i + 2..end])
      else SgrParams(code, i + 1)
  }

  function ProcessSgr(params: Str, st: Style): Style {
    if params == [] || params == [DIGIT_0] then Reset(st) else ApplySgr(Split(params, SEMICOLON), st)
  }

  /** The style after one escape sequence. */
  function Process(code: Str, st: Style): Style {
    match ParseOsc8(code)
    case Close => st.(link := None)
    case Open(link) => st.(link := Some(link))
    case NotALink =>
      if !EndsWith(code, [LETTER_M]) then st
      else
        match SgrParams(code, 0)
        case None => st
        case Some(params) => ProcessSgr(params, st)
  }

  // ------------------------------------------------------------------ printing

  function Flag(on: bool, code: nat): seq<Str> {
    if on then [Decimal(code)] else []
  }

  function Color(c: Option<Str>): seq<Str> {
    if c.Some? then [c.value] else []
  }

  function SgrCodes(st: Style): seq<Str> {
    Flag(st.bold, 1) + Flag(st.dim, 2) + Flag(st.italic, 3) + Flag(st.underline, 4) + Flag(st.blink, 5) +
    Flag(st.inverse, 7) + Flag(st.hidden, 8) + Flag(st.strikethrough, 9) + Color(st.fg) + Color(st.bg)
  }

  function PrintSgr(codes: seq<Str>): Str {
    if codes == [] then [] else CSI + Join(codes, SEMICOLON) + [LETTER_M]
  }

  /** The escape sequences that rebuild `st` from a blank tracker. */
  function ActiveCodes(st: Style): Str {
    PrintSgr(SgrCodes(st)) + LinkText(st)
  }

  function LinkText(st: Style): Str {
    if st.link.Some? then FormatOsc8(st.link.value) else []
  }

  /** What has to be closed at the end of a line. */
  function LineEndReset(st: Style): Str {
    (if st.underline then CSI + [0x32, 0x34] + [LETTER_M] else []) +
    (if st.link.Some? then FormatOsc8Close(st.link.value.terminator) else [])
  }

  /** The style after reading `text` from position `i` on. */
  function ReadFrom(text: Str, i: nat, st: Style): Style
    decreases |text| - i
  {
    if i >= |text| then st
    else
      match AnsiEndAt(text, i)
      case Some(end) => ReadFrom(text, end, Process(text[i..end], st))
      case None => ReadFrom(text, i + 1, st)
  }

  // ------------------------------------------------------------------ the tracker's invariant

  ghost predicate IsCode(code: Str) {
    AnsiEndAt(code, 0) == Some(|code|)
  }

  /** A stored colour: one basic code, or an extended colour of three or five parts. */
  ghost predicate IsColor(c: Str, ground: Ground) {
    && (forall u | u in c :: IsSgrUnit(u))
    && var parts := Split(c, SEMICOLON);
       || (exists n: nat :: ground.IsBasic(n) && c == Decimal(n))
       || (StartsExtended(parts) && ExtendedGround(parts[0]) == Some(ground) && ExtendedLength(parts) == |parts|)
  }

  /** A stored link prints as one escape sequence that reads back as this link. */
  ghost predicate IsLink(link: Hyperlink) {
    IsCode(FormatOsc8(link)) && ParseOsc8(FormatOsc8(link)) == Open(link)
  }

  ghost predicate Coherent(st: Style) {
    && (st.fg.Some? ==> IsColor(st.fg.value, Foreground))
    && (st.bg.Some? ==> IsColor(st.bg.value, Background))
    && (st.link.Some? ==> IsLink(st.link.value))
  }

  // ---- hyperlinks

  lemma RecognisedOsc8Ends(code: Str)
    requires IsCode(code) && StartsWith(code, OSC8)
    ensures var terminator := if EndsWith(code, [BEL]) then Bel else StringTerminator;
            |code| >= |OSC8| + |terminator.Text()| && code[|code| - |terminator.Text()|..] == terminator.Text()
  {
    ControlStringEndMeets(code, 2, true);
    assert code[0] == ESC && code[1] == RIGHT_BRACKET && code[2] == 0x38 && code[3] == SEMICOLON;
    var j: nat :| FirstTerminator(code, 2, j, true) && |code| == j + (if code[j] == ESC then 2 else 1);
    assert !Terminates(code, 2, true) && !Terminates(code, 3, true);
    assert j != 2 && j != 3;
  }

  /** Printing a parsed link gives back the very escape sequence it was parsed from. */
  lemma FormatOfParseOsc8(code: Str)
    requires IsCode(code) && ParseOsc8(code).Open?
    ensures FormatOsc8(ParseOsc8(code).link) == code
    ensures IsLink(ParseOsc8(code).link)
  {
    hide IndexOf, IsCode, Osc8Body, At;
    RecognisedOsc8Ends(code);
    var terminator := if EndsWith(code, [BEL]) then Bel else StringTerminator;
    var body := Osc8Body(code, terminator);
    var separator := IndexOf(body, [SEMICOLON]).value;
    SplitAtSeparator(body, separator);
    BodyBetween(code, terminator);
    assert FormatOsc8(ParseOsc8(code).link) == OSC8 + body + terminator.Text();
  }

  lemma BodyBetween(code: Str, terminator: Terminator)
    requires StartsWith(code, OSC8) && |code| >= |OSC8| + |terminator.Text()|
    requires code[|code| - |terminator.Text()|..] == terminator.Text()
    ensures code == OSC8 + Osc8Body(code, terminator) + terminator.Text()
  {
    var cut := |code| - |terminator.Text()|;
    assert code == code[..|OSC8|] + code[|OSC8|..cut] + code[cut..];
  }

  lemma SplitAtSeparator(body: Str, i: nat)
    requires At(body, [SEMICOLON], i)
    ensures body == body[..i] + [SEMICOLON] + body[i + 1..]
  {
    assert body == body[..i] + body[i..i + 1] + body[i + 1..];
  }

  lemma CloseIsCode(terminator: Terminator)
    ensures IsCode(FormatOsc8Close(terminator)) && ParseOsc8(FormatOsc8Close(terminator)) == Close
  {
    var code := FormatOsc8Close(terminator);
    assert code[..4] == OSC8 && code[4] == SEMICOLON && code[5..] == terminator.Text();
    assert ControlStringEnd(code, 5, true) == Some(|code|);
    assert ControlStringEnd(code, 4, true) == ControlStringEnd(code, 5, true);
    assert ControlStringEnd(code, 3, true) == ControlStringEnd(code, 4, true);
    assert ControlStringEnd(code, 2, true) == ControlStringEnd(code, 3, true);
    assert Osc8Body(code, terminator) == [SEMICOLON];
    assert EndsWith(code, [BEL]) <==> terminator.Bel?;
    FirstUnit([SEMICOLON], SEMICOLON, 0);
  }

  // ---- colours

  lemma BasicIsColor(n: nat, ground: Ground)
    requires ground.IsBasic(n)
    ensures IsColor(Decimal(n), ground)
  {
    assert forall u | u in Decimal(n) :: IsDigit(u);
  }

  lemma ExtendedIsColor(parts: seq<Str>)
    requires StartsExtended(parts) && forall p | p in parts :: AllDigits(p)
    ensures IsColor(Join(parts[..ExtendedLength(parts)], SEMICOLON), ExtendedGround(parts[0]).value)
  {
    hide Split, Join, ParamValue, Decimal;
    var own := parts[..ExtendedLength(parts)];
    assert forall p | p in own :: p in parts;
    DigitsHoldNoSemicolon(own);
    SplitOfJoin(own, SEMICOLON);
    JoinOfDigits(own);
    assert own[0] == parts[0] && own[1] == parts[1];
  }

  lemma DigitsHoldNoSemicolon(parts: seq<Str>)
    requires forall p | p in parts :: AllDigits(p)
    ensures forall p | p in parts :: SEMICOLON !in p
  {
    forall p | p in parts
      ensures SEMICOLON !in p
    {
      assert forall u | u in p :: IsDigit(u);
    }
  }

  lemma {:induction false} JoinOfDigits(parts: seq<Str>)
    requires forall p | p in parts :: AllDigits(p)
    ensures forall u | u in Join(parts, SEMICOLON) :: IsSgrUnit(u)
  {
    if parts != [] {
      assert parts[0] in parts;
      assert forall u | u in parts[0] :: IsDigit(u);
      assert forall p | p in parts[1..] :: p in parts;
      JoinOfDigits(parts[1..]);
    }
  }

  lemma ColorKeepsCoherent(st: Style, ground: Ground, c: Str)
    requires Coherent(st) && IsColor(c, ground)
    ensures Coherent(WithColor(st, ground, c))
  {
    hide IsColor, IsLink;
    match ground {
      case Foreground =>
      case Background =>
    }
  }

  lemma HeadKeepsCoherent(parts: seq<Str>, st: Style)
    requires parts != [] && Coherent(st) && forall p | p in parts :: AllDigits(p)
    ensures Coherent(HeadEffect(parts, st).0)
  {
    hide IsColor, IsLink, ApplyCode, Decimal, Join, ExtendedLength, Coherent, WithColor;
    if StartsExtended(parts) {
      ExtendedIsColor(parts);
      ColorKeepsCoherent(st, ExtendedGround(parts[0]).value, Join(parts[..ExtendedLength(parts)], SEMICOLON));
    } else if ParamValue(parts[0]).Some? {
      ApplyCodeKeepsCoherent(st, ParamValue(parts[0]).value);
    }
  }

  lemma ApplyCodeKeepsCoherent(st: Style, code: nat)
    requires Coherent(st)
    ensures Coherent(ApplyCode(st, code))
  {
    hide IsColor, IsLink, ApplyCode;
    if Foreground.IsBasic(code) {
      BasicIsColor(code, Foreground);
    }
    if Background.IsBasic(code) {
      BasicIsColor(code, Background);
    }
  }

  lemma {:induction false} ApplySgrKeepsCoherent(parts: seq<Str>, st: Style)
    requires Coherent(st) && forall p | p in parts :: AllDigits(p)
    ensures Coherent(ApplySgr(parts, st))
    decreases |parts|
  {
    hide Coherent, HeadEffect;
    if parts != [] {
      HeadKeepsCoherent(parts, st);
      HeadMoves(parts, st);
      ApplySgrKeepsCoherent(parts[HeadEffect(parts, st).1..], HeadEffect(parts, st).0);
    }
  }

  lemma HeadMoves(parts: seq<Str>, st: Style)
    requires parts != []
    ensures 1 <= HeadEffect(parts, st).1 <= |parts|
  {}

  lemma ProcessSgrKeepsCoherent(params: Str, st: Style)
    requires Coherent(st) && forall u | u in params :: IsSgrUnit(u)
    ensures Coherent(ProcessSgr(params, st))
  {
    hide Split, ApplySgr, IsColor;
    SplitHolds(params, SEMICOLON);
    forall p | p in Split(params, SEMICOLON)
      ensures AllDigits(p)
    {
      assert forall i | 0 <= i < |p| :: p[i] in p;
    }
    ApplySgrKeepsCoherent(Split(params, SEMICOLON), st);
  }

    lemma LinkKeepsCoherent(st: Style, link: Option<Hyperlink>)
    requires Coherent(st) && (link.Some? ==> IsLink(link.value))
    ensures Coherent(st.(link := link))
  {
    hide IsColor, IsLink;
  }

  /** Every escape sequence the scanner recognises keeps the tracker's state printable. */
  lemma ProcessKeepsCoherent(code: Str, st: Style)
    requires Coherent(st) && IsCode(code)
    ensures Coherent(Process(code, st))
  {
    hide Coherent, IsLink, IsCode, ParseOsc8, SgrParams, ProcessSgr, EndsWith, FormatOsc8;
    match ParseOsc8(code) {
      case Close => LinkKeepsCoherent(st, None);
      case Open(link) =>
        FormatOfParseOsc8(code);
        LinkKeepsCoherent(st, Some(link));
      case NotALink =>
        if SgrParams(code, 0).Some? {
          ProcessSgrKeepsCoherent(SgrParams(code, 0).value, st);
        }
    }
  }

  // ------------------------------------------------------------------ reading

  lemma {:induction false} ReadShift(text: Str, from: nat, i: nat, st: Style)
    requires from <= i <= |text|
    ensures ReadFrom(text, i, st) == ReadFrom(text[from..], i - from, st)
    decreases |text| - i
  {
    hide AnsiEndAt, Process;
    if i < |text| {
      ScanLooksForward(text, from, i);
      match AnsiEndAt(text, i) {
        case Some(end) =>
          assert text[from..][i - from..end - from] == text[i..end];
          ReadShift(text, from, end, Process(text[i..end], st));
        case None =>
          ReadShift(text, from, i + 1, st);
      }
    }
  }

  lemma ReadCode(code: Str, t: Str, st: Style)
    requires IsCode(code)
    ensures ReadFrom(code + t, 0, st) == ReadFrom(t, 0, Process(code, st))
  {
    hide AnsiEndAt, Process;
    var text := code + t;
    ScanIsLocal(code, 0, text, 0);
    assert text[0..|code|] == code && text[|code|..] == t;
    ReadShift(text, |code|, |code|, Process(code, st));
  }

  // ------------------------------------------------------------------ what was printed reads back

  function SplitAll(codes: seq<Str>): seq<Str> {
    if codes == [] then [] else Split(codes[0], SEMICOLON) + SplitAll(codes[1..])
  }

  lemma {:induction false} SplitOfJoinAll(codes: seq<Str>)
    requires codes != []
    ensures Split(Join(codes, SEMICOLON), SEMICOLON) == SplitAll(codes)
  {
    hide Split;
    if |codes| == 1 {
      assert SplitAll(codes[1..]) == [];
    } else {
      SplitOfJoinAll(codes[1..]);
      SplitConcat(codes[0], Join(codes[1..], SEMICOLON), SEMICOLON);
    }
  }

  predicate IsSgrText(c: Str) {
    c != [] && forall u | u in c :: IsSgrUnit(u)
  }

  lemma {:induction false} JoinOfUnits(codes: seq<Str>)
    requires forall c | c in codes :: IsSgrText(c)
    ensures forall u | u in Join(codes, SEMICOLON) :: IsSgrUnit(u)
  {
    if codes != [] {
      assert codes[0] in codes;
      assert forall c | c in codes[1..] :: c in codes;
      JoinOfUnits(codes[1..]);
    }
  }

  lemma {:induction false} RunEndOfParams(s: Str, j: nat, end: nat)
    requires j <= end < |s| && !IsSgrUnit(s[end]) && forall k | j <= k < end :: IsSgrUnit(s[k])
    ensures RunEnd(s, j) == end
    decreases end - j
  {
    if j < end { RunEndOfParams(s, j + 1, end); }
  }

  lemma SgrIsCode(params: Str)
    requires forall u | u in params :: IsSgrUnit(u)
    ensures IsCode(CSI + params + [LETTER_M])
    ensures ParseOsc8(CSI + params + [LETTER_M]) == NotALink
    ensures EndsWith(CSI + params + [LETTER_M], [LETTER_M])
    ensures SgrParams(CSI + params + [LETTER_M], 0) == Some(params)
  {
    var code := CSI + params + [LETTER_M];
    var last := |code| - 1;
    forall k | 2 <= k < last
      ensures IsSgrUnit(code[k])
    {
      assert code[k] == params[k - 2] && params[k - 2] in params;
    }
    assert code[last] == LETTER_M && code[0..2] == CSI && code[2..last] == params;
    RunEndOfParams(code, 2, last);
    assert IsCsiBody(code, 2, last, |code|);
    CsiEndMeets(code, 2, |code|);
    assert code[1] == LEFT_BRACKET;
  }

  lemma ProcessPrinted(codes: seq<Str>, st: Style)
    requires codes != [] && forall c | c in codes :: IsSgrText(c)
    ensures IsCode(PrintSgr(codes))
    ensures Process(PrintSgr(codes), st) == ApplySgr(SplitAll(codes), st)
  {
    hide SplitAll, IsCode, ParseOsc8, EndsWith, SgrParams;
    var params := Join(codes, SEMICOLON);
    JoinOfUnits(codes);
    assert codes[0] in codes && |Join(codes, SEMICOLON)| >= |codes[0]|;
    SgrIsCode(params);
    SplitOfJoinAll(codes);
    ProcessParams(params, st);
  }

  /** The shortcut for a lone "0" agrees with the general case. */
  lemma ProcessParams(params: Str, st: Style)
    requires params != []
    ensures ProcessSgr(params, st) == ApplySgr(Split(params, SEMICOLON), st)
  {
    hide ApplySgr, Split;
    if params == [DIGIT_0] {
      OneCode(0, st);
      assert Decimal(0) == params;
    }
  }

  lemma OneCode(n: nat, st: Style)
    requires n != 38 && n != 48
    ensures ApplySgr(Split(Decimal(n), SEMICOLON), st) == ApplyCode(st, n)
  {
    hide Split, Decimal, ApplyCode, ApplySgr;
    var none: seq<Str> := [];
    FlagApplies(true, n, none, st);
    ApplyNothing(ApplyCode(st, n));
    SplitOfJoinAll([Decimal(n)]);
    assert Flag(true, n) + none == [Decimal(n)];
  }

  lemma FlagApplies(on: bool, n: nat, rest: seq<Str>, st: Style)
    requires n != 38 && n != 48
    ensures ApplySgr(SplitAll(Flag(on, n) + rest), st) == ApplySgr(SplitAll(rest), if on then ApplyCode(st, n) else st)
  {
    hide ApplyCode, Split, Decimal;
    var codes := Flag(on, n) + rest;
    if on {
      var d := Decimal(n);
      assert forall u | u in d :: IsDigit(u);
      assert Split(d, SEMICOLON) == [d];
      assert codes[0] == d && codes[1..] == rest;
      var parts := [d] + SplitAll(rest);
      assert parts[1..] == SplitAll(rest);
      assert ParamValue(parts[0]) == Some(n);
    } else {
      assert codes == rest;
    }
  }

  lemma ColorApplies(c: Option<Str>, ground: Ground, rest: seq<Str>, st: Style)
    requires c.Some? ==> IsColor(c.value, ground)
    ensures ApplySgr(SplitAll(Color(c) + rest), st) ==
            ApplySgr(SplitAll(rest), if c.Some? then WithColor(st, ground, c.value) else st)
  {
    hide Split, Decimal, ApplyCode;
    var codes := Color(c) + rest;
    if c.Some? {
      assert codes[0] == c.value && codes[1..] == rest;
      if n: nat :| ground.IsBasic(n) && c.value == Decimal(n) {
        FlagApplies(true, n, rest, st);
        BasicApplies(n, ground, st);
        assert Flag(true, n) == Color(c);
      } else {
        var own, tail := Split(c.value, SEMICOLON), SplitAll(rest);
        ExtendedApplies(own, ground, tail, st);
        JoinOfSplit(c.value, SEMICOLON);
      }
    } else {
      assert codes == rest;
    }
  }

  lemma BasicApplies(n: nat, ground: Ground, st: Style)
    requires ground.IsBasic(n)
    ensures ApplyCode(st, n) == WithColor(st, ground, Decimal(n))
  {
    hide Decimal, SwitchOn, SwitchOff;
    match ground {
      case Foreground => assert 30 <= n <= 37 || 90 <= n <= 97;
      case Background => assert 40 <= n <= 47 || 100 <= n <= 107;
    }
  }

  lemma ExtendedApplies(own: seq<Str>, ground: Ground, tail: seq<Str>, st: Style)
    requires StartsExtended(own) && ExtendedGround(own[0]) == Some(ground) && ExtendedLength(own) == |own|
    ensures ApplySgr(own + tail, st) == ApplySgr(tail, WithColor(st, ground, Join(own, SEMICOLON)))
  {
    hide Join, ParamValue;
    var parts := own + tail;
    assert parts[0] == own[0] && parts[1] == own[1];
    assert parts[..|own|] == own && parts[|own|..] == tail;
    assert ExtendedLength(parts) == |own|;
  }

  lemma Assoc(x: seq<Str>, y: seq<Str>, z: seq<Str>)
    ensures x + y + z == x + (y + z)
  {}

  lemma Regroup(st: Style)
    ensures SgrCodes(st) ==
            Flag(st.bold, 1) + (Flag(st.dim, 2) + (Flag(st.italic, 3) + (Flag(st.underline, 4) + (Flag(st.blink, 5) +
            (Flag(st.inverse, 7) + (Flag(st.hidden, 8) + (Flag(st.strikethrough, 9) + (Color(st.fg) + (Color(st.bg) + [])))))))))
  {
    hide Flag, Color;
    var none: seq<Str> := [];
    var x2 := Flag(st.bold, 1) + Flag(st.dim, 2);
    var x3 := x2 + Flag(st.italic, 3);
    var x4 := x3 + Flag(st.underline, 4);
    var x5 := x4 + Flag(st.blink, 5);
    var x6 := x5 + Flag(st.inverse, 7);
    var x7 := x6 + Flag(st.hidden, 8);
    var x8 := x7 + Flag(st.strikethrough, 9);
    var y9 := Color(st.fg) + (Color(st.bg) + none);
    var y8 := Flag(st.strikethrough, 9) + y9;
    var y7 := Flag(st.hidden, 8) + y8;
    var y6 := Flag(st.inverse, 7) + y7;
    var y5 := Flag(st.blink, 5) + y6;
    var y4 := Flag(st.underline, 4) + y5;
    assert Color(st.bg) + none == Color(st.bg);
    Assoc(x8, Color(st.fg), Color(st.bg));
    Assoc(x7, Flag(st.strikethrough, 9), y9);
    Assoc(x6, Flag(st.hidden, 8), y8);
    Assoc(x5, Flag(st.inverse, 7), y7);
    Assoc(x4, Flag(st.blink, 5), y6);
    Assoc(x3, Flag(st.underline, 4), y5);
    Assoc(x2, Flag(st.italic, 3), y4);
    Assoc(Flag(st.bold, 1), Flag(st.dim, 2), Flag(st.italic, 3) + y4);
  }

  lemma FirstFlags(st: Style, rest: seq<Str>)
    ensures ApplySgr(SplitAll(Flag(st.bold, 1) + (Flag(st.dim, 2) + (Flag(st.italic, 3) + (Flag(st.underline, 4) + rest)))), BLANK)
            == ApplySgr(SplitAll(rest), BLANK.(bold := st.bold, dim := st.dim, italic := st.italic, underline := st.underline))
  {
    hide ApplySgr, SplitAll, Flag;
    var f4 := Flag(st.underline, 4) + rest;
    var f3 := Flag(st.italic, 3) + f4;
    var f2 := Flag(st.dim, 2) + f3;
    var s1 := BLANK.(bold := st.bold);
    var s2 := s1.(dim := st.dim);
    var s3 := s2.(italic := st.italic);
    FlagApplies(st.bold, 1, f2, BLANK);
    FlagApplies(st.dim, 2, f3, s1);
    FlagApplies(st.italic, 3, f4, s2);
    FlagApplies(st.underline, 4, rest, s3);
  }

  lemma FlagSet(s: Style, code: nat)
    ensures code == 5 ==> ApplyCode(s, code) == s.(blink := true)
    ensures code == 7 ==> ApplyCode(s, code) == s.(inverse := true)
    ensures code == 8 ==> ApplyCode(s, code) == s.(hidden := true)
    ensures code == 9 ==> ApplyCode(s, code) == s.(strikethrough := true)
  {}

  lemma LastFlags(st: Style, rest: seq<Str>, s: Style)
    requires !s.blink && !s.inverse && !s.hidden && !s.strikethrough
    ensures ApplySgr(SplitAll(Flag(st.blink, 5) + (Flag(st.inverse, 7) + (Flag(st.hidden, 8) + (Flag(st.strikethrough, 9) + rest)))), s)
            == ApplySgr(SplitAll(rest), s.(blink := st.blink, inverse := st.inverse, hidden := st.hidden, strikethrough := st.strikethrough))
  {
    hide ApplySgr, SplitAll, Flag, ApplyCode;
    var f4 := Flag(st.strikethrough, 9) + rest;
    var f3 := Flag(st.hidden, 8) + f4;
    var f2 := Flag(st.inverse, 7) + f3;
    var s1 := s.(blink := st.blink);
    var s2 := s1.(inverse := st.inverse);
    var s3 := s2.(hidden := st.hidden);
    FlagSet(s, 5);
    FlagSet(s1, 7);
    FlagSet(s2, 8);
    FlagSet(s3, 9);
    FlagApplies(st.blink, 5, f2, s);
    FlagApplies(st.inverse, 7, f3, s1);
    FlagApplies(st.hidden, 8, f4, s2);
    FlagApplies(st.strikethrough, 9, rest, s3);
  }

  /** The flags and colours of a style, applied to a blank one, rebuild it up to its hyperlink. */
  lemma CodesRebuild(st: Style)
    requires Coherent(st)
    ensures ApplySgr(SplitAll(SgrCodes(st)), BLANK) == st.(link := None)
  {
    hide ApplySgr, SplitAll, IsColor, IsLink, Flag, Color, SgrCodes;
    var none: seq<Str> := [];
    var c2 := Color(st.bg) + none;
    var c1 := Color(st.fg) + c2;
    var f5 := Flag(st.blink, 5) + (Flag(st.inverse, 7) + (Flag(st.hidden, 8) + (Flag(st.strikethrough, 9) + c1)));
    Regroup(st);
    FirstFlags(st, f5);
    var s4 := BLANK.(bold := st.bold, dim := st.dim, italic := st.italic, underline := st.underline);
    LastFlags(st, c1, s4);
    var s8 := st.(fg := None, bg := None, link := None);
    ColorApplies(st.fg, Foreground, c2, s8);
    var s9 := st.(bg := None, link := None);
    ColorApplies(st.bg, Background, none, s9);
    ApplyNothing(st.(link := None));
  }

  lemma ApplyNothing(st: Style)
    ensures ApplySgr(SplitAll([]), st) == st
  {}

  lemma FlagIsSgrText(on: bool, n: nat)
    ensures forall c | c in Flag(on, n) :: IsSgrText(c)
  {
    assert forall u | u in Decimal(n) :: IsDigit(u);
  }

  lemma ColorIsSgrText(c: Option<Str>, ground: Ground)
    requires c.Some? ==> IsColor(c.value, ground)
    ensures forall t | t in Color(c) :: IsSgrText(t)
  {
    if c == Some([]) {
      assert Split([], SEMICOLON) == [[]];
    }
  }

  lemma SgrCodesAreSgrText(st: Style)
    requires Coherent(st)
    ensures forall c | c in SgrCodes(st) :: IsSgrText(c)
  {
    hide IsSgrText, Flag, Color, IsColor, IsLink;
    FlagIsSgrText(st.bold, 1);
    FlagIsSgrText(st.dim, 2);
    FlagIsSgrText(st.italic, 3);
    FlagIsSgrText(st.underline, 4);
    FlagIsSgrText(st.blink, 5);
    FlagIsSgrText(st.inverse, 7);
    FlagIsSgrText(st.hidden, 8);
    FlagIsSgrText(st.strikethrough, 9);
    ColorIsSgrText(st.fg, Foreground);
    ColorIsSgrText(st.bg, Background);
  }

  /** What is printed is at most two escape sequences: the first rebuilds flags and colours, the second the hyperlink. */
  lemma PrintedParts(st: Style)
    requires Coherent(st)
    ensures var sgr, plain := PrintSgr(SgrCodes(st)), st.(link := None);
            if sgr == [] then plain == BLANK else IsCode(sgr) && Process(sgr, BLANK) == plain
    ensures var link, plain := LinkText(st), st.(link := None);
            if link == [] then plain == st else IsCode(link) && Process(link, plain) == st
  {
    hide IsCode, Process, SgrCodes, FormatOsc8, IsColor;
    var codes := SgrCodes(st);
    CodesRebuild(st);
    if codes == [] {
      ApplyNothing(BLANK);
    } else {
      SgrCodesAreSgrText(st);
      ProcessPrinted(codes, BLANK);
    }
    if st.link.Some? {
      ProcessLink(st.link.value, st.(link := None));
    }
  }

  /** Reading the printed codes from a blank tracker gives exactly the printed style, whatever text follows. */
  lemma PrintedStyleReadsBack(st: Style, t: Str)
    requires Coherent(st)
    ensures ReadFrom(ActiveCodes(st) + t, 0, BLANK) == ReadFrom(t, 0, st)
  {
    hide IsCode, Process, ReadFrom, SgrCodes, PrintSgr, LinkText;
    var sgr, link, plain := PrintSgr(SgrCodes(st)), LinkText(st), st.(link := None);
    PrintedParts(st);
    assert ActiveCodes(st) + t == sgr + (link + t);
    if sgr == [] {
      assert sgr + (link + t) == link + t;
    } else {
      ReadCode(sgr, link + t, BLANK);
    }
    if link == [] {
      assert link + t == t;
    } else {
      ReadCode(link, t, plain);
    }
  }

  lemma ProcessLink(link: Hyperlink, st: Style)
    requires IsLink(link)
    ensures Process(FormatOsc8(link), st) == st.(link := Some(link))
  {}

  /** A style prints as nothing exactly when it is blank. */
  lemma OnlyBlankPrintsNothing(st: Style)
    requires Coherent(st)
    ensures ActiveCodes(st) == [] <==> st == BLANK
  {
    hide ReadFrom, SgrCodes, IsColor, IsLink;
    if ActiveCodes(st) == [] {
      PrintedStyleReadsBack(st, []);
      var none: Str := [];
      assert ActiveCodes(st) + none == none;
      ReadNothing(st);
      ReadNothing(BLANK);
    }
    BlankPrintsNothing();
  }

  lemma BlankPrintsNothing()
    ensures ActiveCodes(BLANK) == []
  {}

  lemma ReadNothing(st: Style)
    ensures ReadFrom([], 0, st) == st
  {}

  /** Distinct styles print distinctly. */
  lemma PrintingIsInjective(one: Style, two: Style)
    requires Coherent(one) && Coherent(two) && ActiveCodes(one) == ActiveCodes(two)
    ensures one == two
  {
    hide ReadFrom, ActiveCodes, Coherent;
    PrintedStyleReadsBack(one, []);
    PrintedStyleReadsBack(two, []);
    ReadNothing(one);
    ReadNothing(two);
  }

  /** What is printed at a line's end switches off the underline, closes the hyperlink, and leaves the rest alone. */
  lemma LineEndCloses(st: Style)
    ensures ReadFrom(LineEndReset(st), 0, st) == st.(underline := false, link := None)
  {
    hide ReadFrom, IsCode, Process, FormatOsc8Close;
    var off: Str := if st.underline then CSI + [0x32, 0x34] + [LETTER_M] else [];
    var close := if st.link.Some? then FormatOsc8Close(st.link.value.terminator) else [];
    UnderlineEnds(st, off, close);
    LinkEnds(st.(underline := false), close);
  }

  lemma UnderlineEnds(st: Style, off: Str, rest: Str)
    requires off == if st.underline then CSI + [0x32, 0x34] + [LETTER_M] else []
    ensures ReadFrom(off + rest, 0, st) == ReadFrom(rest, 0, st.(underline := false))
  {
    hide ReadFrom, IsCode, Process;
    if st.underline {
      UnderlineOff(st);
      ReadCode(off, rest, st);
    } else {
      assert off + rest == rest;
    }
  }

  lemma LinkEnds(st: Style, close: Str)
    requires close == if st.link.Some? then FormatOsc8Close(st.link.value.terminator) else []
    ensures ReadFrom(close, 0, st) == st.(link := None)
  {
    hide ReadFrom, IsCode, Process, FormatOsc8Close;
    if st.link.Some? {
      CloseApplies(st.link.value.terminator, st);
      ReadCode(close, [], st);
      assert close + [] == close;
    }
    ReadNothing(st.(link := None));
  }

  lemma UnderlineOff(st: Style)
    ensures IsCode(CSI + [0x32, 0x34] + [LETTER_M])
    ensures Process(CSI + [0x32, 0x34] + [LETTER_M], st) == st.(underline := false)
  {
    hide IsCode, Process, Split, ApplySgr;
    var codes := [Decimal(24)];
    assert Decimal(24) == [0x32, 0x34];
    FlagIsSgrText(true, 24);
    assert Decimal(24) in Flag(true, 24);
    ProcessPrinted(codes, st);
    SplitOfJoinAll(codes);
    OneCode(24, st);
    assert PrintSgr(codes) == CSI + [0x32, 0x34] + [LETTER_M];
  }

  lemma CloseApplies(terminator: Terminator, st: Style)
    ensures IsCode(FormatOsc8Close(terminator))
    ensures Process(FormatOsc8Close(terminator), st) == st.(link := None)
  {
    hide IsCode, ParseOsc8, FormatOsc8Close;
    CloseIsCode(terminator);
  }

  lemma {:induction false} ReadKeepsCoherent(text: Str, i: nat, st: Style)
    requires Coherent(st)
    ensures Coherent(ReadFrom(text, i, st))
    decreases |text| - i
  {
    hide Coherent, Process;
    if i < |text| {
      match AnsiEndAt(text, i) {
        case Some(end) =>
          var code := text[i..end];
          ScanIsLocal(text, i, code, 0);
          ProcessKeepsCoherent(code, st);
          ReadKeepsCoherent(text, end, Process(code, st));
        case None =>
          ReadKeepsCoherent(text, i + 1, st);
      }
    }
  }

  /** The law the tracker exists for, over whole texts: after any text, the printed codes put a blank terminal in the
      state the text left behind. */
  lemma CodesAfterAnyText(text: Str)
    ensures var st := ReadFrom(text, 0, BLANK);
            Coherent(st) && ReadFrom(ActiveCodes(st), 0, BLANK) == st
  {
    hide ReadFrom, ActiveCodes, Process;
    var st := ReadFrom(text, 0, BLANK);
    ReadKeepsCoherent(text, 0, BLANK);
    PrintedStyleReadsBack(st, []);
    ReadNothing(st);
    assert ActiveCodes(st) + [] == ActiveCodes(st);
  }

  // ------------------------------------------------------------------ the tracker

  class AnsiCodeTracker {
    var bold: bool
    var dim: bool
    var italic: bool
    var underline: bool
    var blink: bool
    var inverse: bool
    var hidden: bool
    var strikethrough: bool
    var fgColor: Option<Str>
    var bgColor: Option<Str>
    var activeHyperlink: Option<Hyperlink>

    function View(): Style
      reads this
    {
      Style(bold, dim, italic, underline, blink, inverse, hidden, strikethrough, fgColor, bgColor, activeHyperlink)
    }

    constructor ()
      ensures View() == BLANK
    {
      bold, dim, italic, underline := false, false, false, false;
      blink, inverse, hidden, strikethrough := false, false, false, false;
      fgColor, bgColor, activeHyperlink := None, None, None;
    }

    method ResetSgr()
      modifies this
      ensures View() == Reset(old(View()))
    {
      bold, dim, italic, underline := false, false, false, false;
      blink, inverse, hidden, strikethrough := false, false, false, false;
      fgColor, bgColor := None, None;
    }

    method Clear()
      modifies this
      ensures View() == BLANK
    {
      ResetSgr();
      activeHyperlink := None;
    }

    method ProcessCode(ansiCode: Str)
      modifies this
      ensures View() == Process(ansiCode, old(View()))
    {
      hide ApplySgr, SgrParams, ParseOsc8, HeadEffect, EndsWith;
      match ParseOsc8(ansiCode) {
        case Close =>
          activeHyperlink := None;
          return;
        case Open(link) =>
          activeHyperlink := Some(link);
          return;
        case NotALink =>
      }
      if !EndsWith(ansiCode, [LETTER_M]) {
        return;
      }
      match SgrParams(ansiCode, 0) {
        case None =>
        case Some(params) =>
          if params == [] || params == [DIGIT_0] {
            ResetSgr();
          } else {
            ProcessParts(Split(params, SEMICOLON));
          }
      }
    }

    method ProcessParts(parts: seq<Str>)
      modifies this
      ensures View() == ApplySgr(parts, old(View()))
    {
      hide HeadEffect;
      var i := 0;
      while i < |parts|
        invariant 0 <= i <= |parts|
        invariant ApplySgr(parts[i..], View()) == ApplySgr(parts, old(View()))
      {
        HeadMoves(parts[i..], View());
        ghost var before, head := View(), HeadEffect(parts[i..], View());
        assert parts[i..][head.1..] == parts[i + head.1..];
        var consumed := ProcessHead(parts, i);
        i := i + consumed;
      }
      assert parts[i..] == [];
    }

    /** The body of the loop: one colour of several parts, or one standard code. */
    method ProcessHead(parts: seq<Str>, i: nat) returns (consumed: nat)
      requires i < |parts|
      modifies this
      ensures (View(), consumed) == HeadEffect(parts[i..], old(View()))
    {
      hide ApplyCode;
      var code := ParamValue(parts[i]);
      if code == Some(38) || code == Some(48) {
        if i + 2 < |parts| && parts[i + 1] == FIVE {
          var colorCode := parts[i] + [SEMICOLON] + parts[i + 1] + [SEMICOLON] + parts[i + 2];
          JoinThree(parts, i);
          if code == Some(38) { fgColor := Some(colorCode); } else { bgColor := Some(colorCode); }
          return 3;
        } else if i + 4 < |parts| && parts[i + 1] == TWO {
          var colorCode := parts[i] + [SEMICOLON] + parts[i + 1] + [SEMICOLON] + parts[i + 2] + [SEMICOLON] +
                           parts[i + 3] + [SEMICOLON] + parts[i + 4];
          JoinFive(parts, i);
          if code == Some(38) { fgColor := Some(colorCode); } else { bgColor := Some(colorCode); }
          return 5;
        }
      }
      if code.Some? {
        Standard(code.value);
      }
      consumed := 1;
    }

    method Standard(code: nat)
      modifies this
      ensures View() == ApplyCode(old(View()), code)
    {
      hide SwitchOn, SwitchOff, Decimal;
      if code < 10 {
        On(code);
      } else if code < 30 {
        Off(code);
      } else if code == 39 {
        fgColor := None;
      } else if code == 49 {
        bgColor := None;
      } else if 30 <= code <= 37 || 90 <= code <= 97 {
        fgColor := Some(Decimal(code));
      } else if 40 <= code <= 47 || 100 <= code <= 107 {
        bgColor := Some(Decimal(code));
      }
    }

    method On(code: nat)
      modifies this
      ensures View() == SwitchOn(old(View()), code)
    {
      match code {
        case 0 => ResetSgr();
        case 1 => bold := true;
        case 2 => dim := true;
        case 3 => italic := true;
        case 4 => underline := true;
        case 5 => blink := true;
        case 7 => inverse := true;
        case 8 => hidden := true;
        case 9 => strikethrough := true;
        case _ =>
      }
    }

    method Off(code: nat)
      modifies this
      ensures View() == SwitchOff(old(View()), code)
    {
      match code {
        case 21 => bold := false;
        case 22 => bold, dim := false, false;
        case 23 => italic := false;
        case 24 => underline := false;
        case 25 => blink := false;
        case 27 => inverse := false;
        case 28 => hidden := false;
        case 29 => strikethrough := false;
        case _ =>
      }
    }

    method GetActiveCodes() returns (result: Str)
      ensures result == ActiveCodes(View())
    {
      var codes := GetSgrCodes();
      result := if |codes| > 0 then CSI + Join(codes, SEMICOLON) + [LETTER_M] else [];
      if activeHyperlink.Some? {
        result := result + FormatOsc8(activeHyperlink.value);
      }
    }

    method GetSgrCodes() returns (codes: seq<Str>)
      ensures codes == SgrCodes(View())
    {
      hide Flag, Color;
      codes := PushFlag([], bold, 1);
      assert codes == Flag(bold, 1);
      codes := PushFlag(codes, dim, 2);
      codes := PushFlag(codes, italic, 3);
      codes := PushFlag(codes, underline, 4);
      codes := PushFlag(codes, blink, 5);
      codes := PushFlag(codes, inverse, 7);
      codes := PushFlag(codes, hidden, 8);
      codes := PushFlag(codes, strikethrough, 9);
      codes := PushColor(codes, fgColor);
      codes := PushColor(codes, bgColor);
    }

    static method PushFlag(codes: seq<Str>, on: bool, code: nat) returns (r: seq<Str>)
      ensures r == codes + Flag(on, code)
    {
      r := codes;
      if on { r := r + [Decimal(code)]; }
    }

    static method PushColor(codes: seq<Str>, color: Option<Str>) returns (r: seq<Str>)
      ensures r == codes + Color(color)
    {
      r := codes;
      if color.Some? { r := r + [color.value]; }
    }

    method HasActiveCodes() returns (active: bool)
      ensures active <==> View() != BLANK
    {
      active := bold || dim || italic || underline || blink || inverse || hidden || strikethrough ||
                fgColor != None || bgColor != None || activeHyperlink != None;
    }

    method GetLineEndReset() returns (result: Str)
      ensures result == LineEndReset(View())
    {
      result := [];
      if underline {
        result := result + (CSI + [0x32, 0x34] + [LETTER_M]);
      }
      if activeHyperlink.Some? {
        result := result + FormatOsc8Close(activeHyperlink.value.terminator);
      }
    }

    /** updateTrackerFromText */
    method UpdateFromText(text: Str)
      modifies this
      ensures View() == ReadFrom(text, 0, old(View()))
    {
      hide Process, AnsiEndAt;
      var extractor := new AnsiCodeExtractor(text);
      var i := 0;
      while i < |text|
        invariant fresh(extractor) && extractor.Valid() && extractor.text == text
        invariant i <= |text|
        invariant ReadFrom(text, i, View()) == ReadFrom(text, 0, old(View()))
        decreases |text| - i
      {
        var end := extractor.EndAt(i);
        if end.Some? {
          ProcessCode(text[i..end.value]);
          i := end.value;
        } else {
          i := i + 1;
        }
      }
    }
  }

  lemma JoinThree(parts: seq<Str>, i: nat)
    requires i + 2 < |parts|
    ensures Join(parts[i..][..3], SEMICOLON) ==
            parts[i] + [SEMICOLON] + parts[i + 1] + [SEMICOLON] + parts[i + 2]
  {
    var own := parts[i..][..3];
    assert own[1..][0] == parts[i + 1] && own[1..][1..] == [parts[i + 2]];
    assert Join(own[1..], SEMICOLON) == parts[i + 1] + [SEMICOLON] + parts[i + 2];
  }

  lemma JoinFive(parts: seq<Str>, i: nat)
    requires i + 4 < |parts|
    ensures Join(parts[i..][..5], SEMICOLON) ==
            parts[i] + [SEMICOLON] + parts[i + 1] + [SEMICOLON] + parts[i + 2] + [SEMICOLON] + parts[i + 3] +
            [SEMICOLON] + parts[i + 4]
  {
    var own := parts[i..][..5];
    JoinThree(parts, i + 2);
    assert own[1..][1..] == parts[i + 2..][..3];
    assert Join(own[1..], SEMICOLON) == parts[i + 1] + [SEMICOLON] + Join(parts[i + 2..][..3], SEMICOLON);
  }
}
