/** The canonical `loom://kind/id` address codec (packages/network/src/address.ts). */
module Address {
  import opened Strings

  const SLASH: Unit := 0x2f
  const PERCENT: Unit := 0x25
  const HASH: Unit := 0x23
  const QUESTION: Unit := 0x3f
  const AT_SIGN: Unit := 0x40

  /** "loom://" */
  const SCHEME: Str := [0x6c, 0x6f, 0x6f, 0x6d, 0x3a, 0x2f, 0x2f]

  const MAX_ID_LENGTH := 256
  const MAX_ENCODED_ID_LENGTH := 1024

  datatype Kind = Worker | Agent | Job | Bot | Schedule | Controller

  function KindName(k: Kind): Str {
    match k
    case Worker => [0x77, 0x6f, 0x72, 0x6b, 0x65, 0x72]
    case Agent => [0x61, 0x67, 0x65, 0x6e, 0x74]
    case Job => [0x6a, 0x6f, 0x62]
    case Bot => [0x62, 0x6f, 0x74]
    case Schedule => [0x73, 0x63, 0x68, 0x65, 0x64, 0x75, 0x6c, 0x65]
    case Controller => [0x63, 0x6f, 0x6e, 0x74, 0x72, 0x6f, 0x6c, 0x6c, 0x65, 0x72]
  }

  function KindNamed(name: Str): (r: Option<Kind>)
    ensures r.Some? ==> KindName(r.value) == name
    ensures forall k :: KindName(k) == name ==> r == Some(k)
  {
    if name == KindName(Worker) then Some(Worker)
    else if name == KindName(Agent) then Some(Agent)
    else if name == KindName(Job) then Some(Job)
    else if name == KindName(Bot) then Some(Bot)
    else if name == KindName(Schedule) then Some(Schedule)
    else if name == KindName(Controller) then Some(Controller)
    else None
  }

  datatype AddressError =
    | InvalidScheme | InvalidAuthority | CredentialsNotAllowed | PortNotAllowed | QueryNotAllowed
    | FragmentNotAllowed | InvalidResourceKind | InvalidPath | InvalidId | NonCanonical

  datatype Result<T> = Ok(value: T) | Err(error: AddressError)

  datatype Address = Address(kind: Kind, id: Str)

  // ------------------------------------------------------------------ code points

  predicate IsHigh(u: Unit) { 0xd800 <= u <= 0xdbff }

  predicate IsLow(u: Unit) { 0xdc00 <= u <= 0xdfff }

  /** How many units the first code point of `s` takes; an unpaired surrogate counts as one. */
  function FirstLength(s: Str): (n: nat)
    requires s != []
    ensures 1 <= n <= |s| && n <= 2
  {
    if IsHigh(s[0]) && |s| >= 2 && IsLow(s[1]) then 2 else 1
  }

  /** `[...s].length` */
  function PointCount(s: Str): nat {
    if s == [] then 0 else 1 + PointCount(s[FirstLength(s)..])
  }

  predicate IsScalar(p: int) {
    0 <= p < 0xd800 || 0xe000 <= p < 0x11_0000
  }

  /** The first code point, unless it is an unpaired surrogate. */
  function FirstPoint(s: Str): (r: Option<int>)
    requires s != []
    ensures r.Some? ==> IsScalar(r.value)
  {
    if FirstLength(s) == 2 then Some(0x1_0000 + (s[0] as int - 0xd800) * 0x400 + (s[1] as int - 0xdc00))
    else if IsHigh(s[0]) || IsLow(s[0]) then None
    else Some(s[0])
  }

  /** UTF-16, RFC 2781 section 2.1. */
  function Utf16(p: int): (s: Str)
    requires IsScalar(p)
    ensures 1 <= |s| <= 2
  {
    if p < 0x1_0000 then [p]
    else [0xd800 + (p - 0x1_0000) / 0x400, 0xdc00 + (p - 0x1_0000) % 0x400]
  }

  lemma FirstPointUnits(s: Str)
    requires s != [] && FirstPoint(s).Some?
    ensures Utf16(FirstPoint(s).value) == s[..FirstLength(s)]
  {}

  // ------------------------------------------------------------------ UTF-8, RFC 3629 section 3

  type Byte = b: int | 0 <= b < 256

  function Utf8(p: int): (bytes: seq<Byte>)
    requires IsScalar(p)
    ensures 1 <= |bytes| <= 4
  {
    if p < 0x80 then [p]
    else if p < 0x800 then [0xc0 + p / 0x40, 0x80 + p % 0x40]
    else if p < 0x1_0000 then [0xe0 + p / 0x1000, 0x80 + p / 0x40 % 0x40, 0x80 + p % 0x40]
    else [0xf0 + p / 0x4_0000, 0x80 + p / 0x1000 % 0x40, 0x80 + p / 0x40 % 0x40, 0x80 + p % 0x40]
  }

  predicate IsContinuation(b: Byte) { 0x80 <= b < 0xc0 }

  /** How many bytes a sequence starting with `b` has; none for a continuation byte or an impossible start. */
  function SequenceLength(b: Byte): Option<nat> {
    if b < 0x80 then Some(1)
    else if 0xc0 <= b < 0xe0 then Some(2)
    else if 0xe0 <= b < 0xf0 then Some(3)
    else if 0xf0 <= b < 0xf8 then Some(4)
    else None
  }

  /** The code point of one byte sequence: overlong forms, surrogates and points past U+10FFFF are refused. */
  function PointOf(bytes: seq<Byte>): (r: Option<int>)
    ensures r.Some? ==> IsScalar(r.value)
  {
    if |bytes| == 1 && bytes[0] < 0x80 then Some(bytes[0])
    else if |bytes| == 2 && 0xc0 <= bytes[0] < 0xe0 && IsContinuation(bytes[1]) then
      AtLeast((bytes[0] as int - 0xc0) * 0x40 + (bytes[1] as int - 0x80), 0x80)
    else if |bytes| == 3 && 0xe0 <= bytes[0] < 0xf0 && IsContinuation(bytes[1]) && IsContinuation(bytes[2]) then
      AtLeast((bytes[0] as int - 0xe0) * 0x1000 + (bytes[1] as int - 0x80) * 0x40 + (bytes[2] as int - 0x80), 0x800)
    else if |bytes| == 4 && 0xf0 <= bytes[0] < 0xf8 && IsContinuation(bytes[1]) && IsContinuation(bytes[2]) &&
            IsContinuation(bytes[3]) then
      AtLeast((bytes[0] as int - 0xf0) * 0x4_0000 + (bytes[1] as int - 0x80) * 0x1000 +
              (bytes[2] as int - 0x80) * 0x40 + (bytes[3] as int - 0x80), 0x1_0000)
    else None
  }

  function AtLeast(p: int, least: int): (r: Option<int>)
    ensures r.Some? ==> IsScalar(r.value)
  {
    if p >= least && IsScalar(p) then Some(p) else None
  }

  lemma PointOfUtf8(p: int)
    requires IsScalar(p)
    ensures PointOf(Utf8(p)) == Some(p)
    ensures SequenceLength(Utf8(p)[0]) == Some(|Utf8(p)|)
  {
    hide PointOf, Utf8, SequenceLength;
    if p < 0x80 {
      OneByte(p);
    } else if p < 0x800 {
      TwoBytes(p);
    } else if p < 0x1_0000 {
      ThreeBytes(p);
    } else {
      FourBytes(p);
    }
  }

  lemma OneByte(p: int)
    requires 0 <= p < 0x80
    ensures PointOf(Utf8(p)) == Some(p) && SequenceLength(Utf8(p)[0]) == Some(|Utf8(p)|)
  {}

  lemma TwoBytes(p: int)
    requires 0x80 <= p < 0x800
    ensures PointOf(Utf8(p)) == Some(p) && SequenceLength(Utf8(p)[0]) == Some(|Utf8(p)|)
  {
    var q := p / 0x40;
    assert p == q * 0x40 + p % 0x40 && 2 <= q < 0x20;
    var b := Utf8(p);
    assert b[0] as int - 0xc0 == q && b[1] as int - 0x80 == p % 0x40;
  }

  lemma ThreeBytes(p: int)
    requires 0x800 <= p < 0x1_0000 && IsScalar(p)
    ensures PointOf(Utf8(p)) == Some(p) && SequenceLength(Utf8(p)[0]) == Some(|Utf8(p)|)
  {
    var q := p / 0x40;
    var r := q / 0x40;
    assert p / 0x1000 == r && r < 0x10;
    assert p == q * 0x40 + p % 0x40 && q == r * 0x40 + q % 0x40;
    var b := Utf8(p);
    assert b[0] as int - 0xe0 == r && b[1] as int - 0x80 == q % 0x40 && b[2] as int - 0x80 == p % 0x40;
  }

  lemma FourBytes(p: int)
    requires 0x1_0000 <= p < 0x11_0000
    ensures PointOf(Utf8(p)) == Some(p) && SequenceLength(Utf8(p)[0]) == Some(|Utf8(p)|)
  {
    var q := p / 0x40;
    var r := q / 0x40;
    assert p / 0x1000 == r && p / 0x4_0000 == r / 0x40;
    assert p == q * 0x40 + p % 0x40 && q == r * 0x40 + q % 0x40 && r == r / 0x40 * 0x40 + r % 0x40;
  }

  // ------------------------------------------------------------------ percent encoding

  /** The unreserved characters of RFC 3986, section 2.3. */
  predicate IsUnreserved(u: Unit) {
    || 0x41 <= u <= 0x5a || 0x61 <= u <= 0x7a || 0x30 <= u <= 0x39
    || u == 0x2d || u == 0x2e || u == 0x5f || u == 0x7e
  }

  /** `!`, `'`, `(`, `)`, `*`: kept by encodeURIComponent, escaped by the codec. */
  predicate IsMark(u: Unit) {
    u == 0x21 || 0x27 <= u <= 0x2a
  }

  function HexDigit(n: int): Unit
    requires 0 <= n < 16
  {
    if n < 10 then 0x30 + n else 0x41 + n - 10
  }

  function HexValue(u: Unit): Option<int> {
    if 0x30 <= u <= 0x39 then Some(u - 0x30)
    else if 0x41 <= u <= 0x46 then Some(u - 0x41 + 10)
    else if 0x61 <= u <= 0x66 then Some(u - 0x61 + 10)
    else None
  }

  function Escape(b: Byte): (s: Str)
    ensures |s| == 3
  {
    [PERCENT, HexDigit(b / 16), HexDigit(b % 16)]
  }

  function EscapeAll(bytes: seq<Byte>): (s: Str)
    ensures |s| == 3 * |bytes|
  {
    if bytes == [] then [] else Escape(bytes[0]) + EscapeAll(bytes[1..])
  }

  /** encodeURIComponent; undefined on an unpaired surrogate. */
  function EncodeComponent(s: Str): Option<Str>
    decreases |s|
  {
    if s == [] then Some([])
    else
      match (FirstPoint(s), EncodeComponent(s[FirstLength(s)..]))
      case (Some(p), Some(rest)) =>
        Some((if IsUnreserved(s[0]) || IsMark(s[0]) then [s[0]] else EscapeAll(Utf8(p))) + rest)
      case _ => None
  }

  /** `.replace(/[!'()*]/g, …)` */
  function EscapeMarks(s: Str): Str {
    if s == [] then [] else (if IsMark(s[0]) then Escape(s[0]) else [s[0]]) + EscapeMarks(s[1..])
  }

  function EncodeId(s: Str): (r: Option<Str>)
    ensures r.Some? <==> EncodeComponent(s).Some?
  {
    match EncodeComponent(s)
    case None => None
    case Some(t) => Some(EscapeMarks(t))
  }

  /** One `%XX`, as a byte. */
  function EscapedByte(s: Str): (r: Option<Byte>)
    ensures r.Some? ==> |s| >= 3
  {
    if |s| < 3 || s[0] != PERCENT then None
    else
      match (HexValue(s[1]), HexValue(s[2]))
      case (Some(hi), Some(lo)) => Some(hi * 16 + lo)
      case _ => None
  }

  /** The first `n` escapes of `s`, as bytes. */
  function EscapedBytes(s: Str, n: nat): (r: Option<seq<Byte>>)
    ensures r.Some? ==> |r.value| == n && |s| >= 3 * n
  {
    if n == 0 then Some([])
    else
      match EscapedByte(s)
      case None => None
      case Some(b) =>
        match EscapedBytes(s[3..], n - 1)
        case None => None
        case Some(rest) => Some([b] + rest)
  }

  /** One code point at the head of an encoded string, and the units it takes there. */
  function DecodeFirst(s: Str): (r: Option<(Str, nat)>)
    requires s != []
    ensures r.Some? ==> 1 <= r.value.1 <= |s|
  {
    if s[0] != PERCENT then Some((s[..1], 1))
    else
      match EscapedByte(s)
      case None => None
      case Some(b) =>
        match SequenceLength(b)
        case None => None
        case Some(n) =>
          match EscapedBytes(s, n)
          case None => None
          case Some(bytes) =>
            match PointOf(bytes)
            case None => None
            case Some(p) => if n >= 1 then Some((Utf16(p), 3 * n)) else None
  }

  /** decodeURIComponent; undefined on a malformed escape. */
  function DecodeComponent(s: Str): Option<Str>
    decreases |s|
  {
    if s == [] then Some([])
    else
      match DecodeFirst(s)
      case None => None
      case Some(first) =>
        match DecodeComponent(s[first.1..])
        case None => None
        case Some(rest) => Some(first.0 + rest)
  }

  // ------------------------------------------------------------------ validation, printing, parsing

  predicate IsForbidden(u: Unit) {
    u == SLASH || u == BACKSLASH || u <= 0x1f || u == 0x7f
  }

  predicate ValidId(id: Str) {
    && 1 <= PointCount(id) <= MAX_ID_LENGTH
    && id != [0x2e] && id != [0x2e, 0x2e]
    && (forall i | 0 <= i < |id| :: !IsForbidden(id[i]))
    && EncodeComponent(id).Some?
  }

  function Format(a: Address): (r: Result<Str>)
    ensures r.Ok? <==> ValidId(a.id)
    ensures r.Ok? ==> EncodeId(a.id).Some?
  {
    if !ValidId(a.id) then Err(InvalidId)
    else Ok(SCHEME + KindName(a.kind) + [SLASH] + EncodeId(a.id).value)
  }

  function Parse(text: Str): Result<Address> {
    if HASH in text then Err(FragmentNotAllowed)
    else if QUESTION in text then Err(QueryNotAllowed)
    else if !StartsWith(text, SCHEME) then Err(InvalidScheme)
    else
      var remainder := text[|SCHEME|..];
      match IndexOf(remainder, [SLASH])
      case None => Err(InvalidPath)
      case Some(slash) => ParseParts(remainder[..slash], remainder[slash + 1..])
  }

  function ParseParts(authority: Str, raw: Str): Result<Address> {
    if AT_SIGN in authority then Err(CredentialsNotAllowed)
    else if COLON in authority then Err(PortNotAllowed)
    else if authority == [] then Err(InvalidAuthority)
    else
      match KindNamed(authority)
      case None => Err(InvalidResourceKind)
      case Some(kind) =>
        if raw == [] || SLASH in raw || BACKSLASH in raw || |raw| > MAX_ENCODED_ID_LENGTH then Err(InvalidPath)
        else
          match DecodeComponent(raw)
          case None => Err(InvalidId)
          case Some(id) =>
            if !ValidId(id) then Err(InvalidId)
            else if EncodeId(id) != Some(raw) then Err(NonCanonical)
            else Ok(Address(kind, id))
  }

  // ------------------------------------------------------------------ the printed form of one code point

  /** What the two encoding passes make of the first code point of `s`. */
  function Printed(s: Str): (r: Str)
    requires s != [] && FirstPoint(s).Some?
  {
    if IsUnreserved(s[0]) then [s[0]] else EscapeAll(Utf8(FirstPoint(s).value))
  }

  lemma {:induction false} EscapeMarksConcat(s: Str, t: Str)
    ensures EscapeMarks(s + t) == EscapeMarks(s) + EscapeMarks(t)
  {
    if s == [] {
      assert s + t == t;
    } else {
      assert (s + t)[1..] == s[1..] + t;
      EscapeMarksConcat(s[1..], t);
    }
  }

  lemma {:induction false} EscapeMarksKeeps(s: Str)
    requires forall i | 0 <= i < |s| :: !IsMark(s[i])
    ensures EscapeMarks(s) == s
  {
    if s != [] {
      EscapeMarksKeeps(s[1..]);
    }
  }

  lemma {:induction false} EscapesHoldNoMarks(bytes: seq<Byte>)
    ensures forall u | u in EscapeAll(bytes) :: !IsMark(u) && (IsUnreserved(u) || u == PERCENT)
  {
    if bytes != [] {
      EscapesHoldNoMarks(bytes[1..]);
    }
  }

  lemma EncodeIdStep(s: Str)
    requires s != [] && EncodeComponent(s).Some?
    ensures FirstPoint(s).Some?
    ensures EncodeComponent(s[FirstLength(s)..]).Some?
    ensures EncodeId(s).value == Printed(s) + EncodeId(s[FirstLength(s)..]).value
  {
    var p := FirstPoint(s).value;
    var rest := EncodeComponent(s[FirstLength(s)..]).value;
    var head := if IsUnreserved(s[0]) || IsMark(s[0]) then [s[0]] else EscapeAll(Utf8(p));
    EscapeMarksConcat(head, rest);
    EscapesHoldNoMarks(Utf8(p));
    assert EscapeMarks(head) == Printed(s) by {
      if IsUnreserved(s[0]) {
        EscapeMarksKeeps(head);
      } else if IsMark(s[0]) {
        assert Utf8(p) == [s[0]];
        assert EscapeAll(Utf8(p)) == Escape(s[0]);
        assert EscapeMarks(head) == Escape(s[0]);
      } else {
        EscapeMarksKeeps(head);
      }
    }
  }

  lemma EscapedByteOfEscape(b: Byte, t: Str)
    ensures EscapedByte(Escape(b) + t) == Some(b)
    ensures (Escape(b) + t)[3..] == t
  {
    assert b == b / 16 * 16 + b % 16;
  }

  lemma {:induction false} EscapedBytesOfEscapeAll(bytes: seq<Byte>, t: Str)
    ensures EscapedBytes(EscapeAll(bytes) + t, |bytes|) == Some(bytes)
    ensures bytes != [] ==> EscapedByte(EscapeAll(bytes) + t) == Some(bytes[0])
  {
    hide Escape, EscapedByte;
    if bytes != [] {
      var rest, all := EscapeAll(bytes[1..]), EscapeAll(bytes) + t;
      assert all == Escape(bytes[0]) + (rest + t);
      EscapedByteOfEscape(bytes[0], rest + t);
      EscapedBytesOfEscapeAll(bytes[1..], t);
      assert all[3..] == rest + t;
      assert [bytes[0]] + bytes[1..] == bytes;
    }
  }

  lemma DecodeFirstOfPrinted(s: Str, t: Str)
    requires s != [] && FirstPoint(s).Some?
    ensures Printed(s) != []
    ensures DecodeFirst(Printed(s) + t) == Some((s[..FirstLength(s)], |Printed(s)|))
  {
    FirstPointUnits(s);
    if IsUnreserved(s[0]) {
      assert FirstLength(s) == 1;
      assert (Printed(s) + t)[..1] == s[..1];
    } else {
      var bytes := Utf8(FirstPoint(s).value);
      PointOfUtf8(FirstPoint(s).value);
      EscapedBytesOfEscapeAll(bytes, t);
    }
  }

  lemma EncodeOfNothing()
    ensures EncodeId([]) == Some([])
  {}

  /** Decoding undoes encoding, for every well-formed string. */
  lemma {:induction false} DecodeOfEncode(s: Str)
    requires EncodeComponent(s).Some?
    ensures DecodeComponent(EncodeId(s).value) == Some(s)
    decreases |s|
  {
    hide DecodeFirst, Printed, EncodeId, EncodeComponent, FirstPoint;
    EncodeOfNothing();
    if s != [] {
      var rest := s[FirstLength(s)..];
      EncodeIdStep(s);
      DecodeOfEncode(rest);
      var t := EncodeId(rest).value;
      DecodeFirstOfPrinted(s, t);
      assert (Printed(s) + t)[|Printed(s)|..] == t;
      assert s == s[..FirstLength(s)] + rest;
    }
  }

  /** An encoded id is made of unreserved characters and percent signs only. */
  lemma {:induction false} EncodedAlphabet(s: Str)
    requires EncodeComponent(s).Some?
    ensures forall u | u in EncodeId(s).value :: IsUnreserved(u) || u == PERCENT
    decreases |s|
  {
    if s != [] {
      var rest := s[FirstLength(s)..];
      EncodeIdStep(s);
      EncodedAlphabet(rest);
      EscapesHoldNoMarks(Utf8(FirstPoint(s).value));
    }
  }

  /** Each code point takes between one and twelve characters. */
  lemma {:induction false} EncodedLength(s: Str)
    requires EncodeComponent(s).Some?
    ensures PointCount(s) <= |EncodeId(s).value| <= 12 * PointCount(s)
    decreases |s|
  {
    if s != [] {
      EncodeIdStep(s);
      EncodedLength(s[FirstLength(s)..]);
    }
  }

  lemma {:induction false} VerbatimExactly(s: Str)
    requires EncodeComponent(s).Some?
    ensures EncodeId(s).value == s <==> (forall i | 0 <= i < |s| :: IsUnreserved(s[i]))
    ensures |EncodeId(s).value| >= |s|
    ensures |EncodeId(s).value| == |s| ==> EncodeId(s).value == s
    decreases |s|
  {
    if s != [] {
      var n := FirstLength(s);
      EncodeIdStep(s);
      VerbatimExactly(s[n..]);
      assert s == s[..n] + s[n..];
      if IsUnreserved(s[0]) {
        assert n == 1 && s[..1] == [s[0]];
        assert forall i | 0 <= i < |s| :: i > 0 ==> s[i] == s[1..][i - 1];
      } else {
        assert |Printed(s)| >= 3;
      }
    }
  }

  /** A string is printed unchanged exactly when every character of it is unreserved (RFC 3986, section 2.3): a letter, a
      digit, a hyphen, a period, an underscore or a tilde. */
  lemma VerbatimExactlyWhenUnreserved(s: Str)
    requires EncodeComponent(s).Some?
    ensures EncodeId(s).value == s <==>
              forall i | 0 <= i < |s| ::
                0x41 <= s[i] <= 0x5a || 0x61 <= s[i] <= 0x7a || 0x30 <= s[i] <= 0x39 || s[i] in [0x2d, 0x2e, 0x5f, 0x7e]
  {
    hide EncodeId, EncodeComponent;
    VerbatimExactly(s);
  }

  // ------------------------------------------------------------------ the codec

  lemma KindNamesAreLetters(k: Kind)
    ensures KindName(k) != []
    ensures forall i | 0 <= i < |KindName(k)| :: 0x61 <= KindName(k)[i] <= 0x7a
    ensures forall u | u in KindName(k) :: 0x61 <= u <= 0x7a
  {}

  lemma PartsAreParts(text: Str)
    requires StartsWith(text, SCHEME) && IndexOf(text[|SCHEME|..], [SLASH]).Some?
    ensures var slash := IndexOf(text[|SCHEME|..], [SLASH]).value;
            text == SCHEME + text[|SCHEME|..][..slash] + [SLASH] + text[|SCHEME|..][slash + 1..]
  {
    var remainder := text[|SCHEME|..];
    var slash := IndexOf(remainder, [SLASH]).value;
    assert remainder == remainder[..slash] + remainder[slash..slash + 1] + remainder[slash + 1..];
    assert text == text[..|SCHEME|] + remainder;
  }

  lemma PartsOfParse(authority: Str, raw: Str)
    requires ParseParts(authority, raw).Ok?
    ensures var a := ParseParts(authority, raw).value;
            ValidId(a.id) && KindName(a.kind) == authority && EncodeId(a.id) == Some(raw) && |raw| <= MAX_ENCODED_ID_LENGTH
  {
    hide KindNamed, KindName, EncodeId, ValidId, DecodeComponent;
  }

  /** Printing what was parsed gives back the very string that was parsed. */
  lemma FormatOfParse(text: Str)
    requires Parse(text).Ok?
    ensures Format(Parse(text).value) == Ok(text)
    ensures |EncodeId(Parse(text).value.id).value| <= MAX_ENCODED_ID_LENGTH
  {
    hide IndexOf, KindName, EncodeId, ValidId, ParseParts;
    var remainder := text[|SCHEME|..];
    var slash := IndexOf(remainder, [SLASH]).value;
    PartsAreParts(text);
    PartsOfParse(remainder[..slash], remainder[slash + 1..]);
  }

  /** No two accepted strings name the same address. */
  lemma ParseIsInjective(one: Str, two: Str)
    requires Parse(one).Ok? && Parse(one) == Parse(two)
    ensures one == two
  {
    FormatOfParse(one);
    FormatOfParse(two);
  }

  lemma KindNamesAreUnreserved(k: Kind)
    ensures forall u | u in KindName(k) :: IsUnreserved(u)
  {
    KindNamesAreLetters(k);
  }

  /** What the parser sees in a printed address: no separator besides the two of the scheme and the one after the kind. */
  lemma PrintedShape(a: Address)
    requires ValidId(a.id)
    ensures var text := Format(a).value;
            && HASH !in text && QUESTION !in text && StartsWith(text, SCHEME)
            && text[|SCHEME|..] == KindName(a.kind) + [SLASH] + EncodeId(a.id).value
  {
    hide KindName, EncodeId, ValidId;
    KindNamesAreUnreserved(a.kind);
    EncodableId(a.id);
    EncodedAlphabet(a.id);
  }

  lemma EncodableId(id: Str)
    requires ValidId(id)
    ensures EncodeComponent(id).Some? && EncodeId(id).Some? && id != []
  {}

  lemma FirstSlash(name: Str, rest: Str)
    requires SLASH !in name
    ensures IndexOf(name + [SLASH] + rest, [SLASH]) == Some(|name|)
    ensures (name + [SLASH] + rest)[..|name|] == name
    ensures (name + [SLASH] + rest)[|name| + 1..] == rest
  {
    hide IndexOf;
    var s := name + [SLASH] + rest;
    assert forall i | 0 <= i < |name| :: s[i] == name[i] && name[i] in name;
    FirstUnit(s, SLASH, |name|);
  }

  lemma ParsePartsOfFormat(a: Address)
    requires ValidId(a.id)
    ensures ParseParts(KindName(a.kind), EncodeId(a.id).value) ==
            if |EncodeId(a.id).value| <= MAX_ENCODED_ID_LENGTH then Ok(a) else Err(InvalidPath)
  {
    hide KindName, KindNamed, EncodeId, EncodeComponent, DecodeComponent, ValidId;
    EncodableId(a.id);
    KindNamesAreLetters(a.kind);
    EncodedAlphabet(a.id);
    VerbatimExactly(a.id);
    DecodeOfEncode(a.id);
    assert KindNamed(KindName(a.kind)) == Some(a.kind);
  }

  /** Parsing a printed address gives it back exactly when the encoded id is at most 1024 characters long. */
  lemma ParseOfFormat(a: Address)
    requires ValidId(a.id)
    ensures Parse(Format(a).value) ==
            if |EncodeId(a.id).value| <= MAX_ENCODED_ID_LENGTH then Ok(a) else Err(InvalidPath)
  {
    hide KindName, EncodeId, ValidId, ParseParts, IndexOf, StartsWith, IsUnreserved;
    KindNamesAreLetters(a.kind);
    PrintedShape(a);
    ParsePartsOfFormat(a);
    FirstSlash(KindName(a.kind), EncodeId(a.id).value);
  }

  /** The accepted strings are exactly the printed addresses of at most 1024 id characters. */
  lemma AcceptedExactlyWhenPrinted(text: Str)
    ensures Parse(text).Ok? <==>
            exists a :: Format(a) == Ok(text) && |EncodeId(a.id).value| <= MAX_ENCODED_ID_LENGTH
  {
    hide Parse, EncodeId, ValidId;
    if Parse(text).Ok? {
      FormatOfParse(text);
    }
    forall a | Format(a) == Ok(text) && |EncodeId(a.id).value| <= MAX_ENCODED_ID_LENGTH
      ensures Parse(text).Ok?
    {
      ParseOfFormat(a);
    }
  }

  /** Every valid id of at most 85 code points survives the round trip. */
  lemma ShortIdsRoundTrip(a: Address)
    requires ValidId(a.id) && PointCount(a.id) <= 85
    ensures Parse(Format(a).value) == Ok(a)
  {
    hide Parse, Format, EncodeId, PointCount, EncodeComponent;
    EncodedLength(a.id);
    ParseOfFormat(a);
  }

  /** `n` copies of U+10000. */
  function FourByteId(n: nat): (s: Str) {
    if n == 0 then [] else [0xd800, 0xdc00] + FourByteId(n - 1)
  }

  lemma PrintedFourBytes(s: Str)
    requires s != [] && FirstPoint(s) == Some(0x1_0000)
    ensures |Printed(s)| == 12
  {
    assert !IsUnreserved(s[0]);
    assert |Utf8(0x1_0000)| == 4;
  }

  lemma {:induction false} FourByteIdShape(n: nat)
    ensures |FourByteId(n)| == 2 * n && PointCount(FourByteId(n)) == n
    ensures EncodeComponent(FourByteId(n)).Some?
    ensures |EncodeId(FourByteId(n)).value| == 12 * n
    ensures forall u | u in FourByteId(n) :: u >= 0xd800
  {
    hide EncodeId, EncodeComponent, PointCount;
    EncodeOfNothing();
    if n == 0 {
      NoPoints();
    } else {
      FourByteIdShape(n - 1);
      FourByteHead(FourByteId(n), FourByteId(n - 1));
      FourByteStep(FourByteId(n), FourByteId(n - 1), n);
    }
  }

  lemma NoPoints()
    ensures PointCount([]) == 0
  {}

  lemma FourByteStep(s: Str, rest: Str, n: nat)
    requires s == [0xd800, 0xdc00] + rest && EncodeComponent(s).Some? && EncodeComponent(rest).Some?
    requires FirstLength(s) == 2 && FirstPoint(s) == Some(0x1_0000)
    requires 0 < n && |EncodeId(rest).value| == 12 * (n - 1)
    ensures |EncodeId(s).value| == 12 * n
  {
    hide EncodeId, EncodeComponent, Printed, FirstPoint, FirstLength;
    PrintedFourBytes(s);
    EncodeIdStep(s);
    assert s[2..] == rest;
  }

  lemma FourByteHead(s: Str, rest: Str)
    requires s == [0xd800, 0xdc00] + rest
    ensures FirstLength(s) == 2 && FirstPoint(s) == Some(0x1_0000)
    ensures EncodeComponent(rest).Some? ==> EncodeComponent(s).Some?
    ensures PointCount(s) == 1 + PointCount(rest)
  {
    hide Printed, Utf8, EscapeAll, IsUnreserved, IsMark;
    assert s[2..] == rest;
  }

  /** 85 is the best bound: for every length above it the codec prints some valid id that it then refuses to read. */
  lemma LongerIdsMayFail(n: nat)
    requires 85 < n <= MAX_ID_LENGTH
    ensures exists a: Address :: ValidId(a.id) && PointCount(a.id) == n && Parse(Format(a).value) == Err(InvalidPath)
  {
    hide PointCount, EncodeComponent, EncodeId, FourByteId, Parse, Format;
    var id := FourByteId(n);
    FourByteIdShape(n);
    var a := Address(Worker, id);
    assert forall i | 0 <= i < |id| :: id[i] in id;
    assert ValidId(id);
    ParseOfFormat(a);
  }
}
