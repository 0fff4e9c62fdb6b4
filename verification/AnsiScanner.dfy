/** Escape-sequence scanning (packages/tui/src/utils.ts:340-457): the forward scan, and the extractor with its cache. */
module AnsiScanner {
  import opened Strings

  const LEFT_BRACKET: Unit := 0x5b
  const RIGHT_BRACKET: Unit := 0x5d
  const UNDERSCORE: Unit := 0x5f
  const CARET: Unit := 0x5e
  const LETTER_P: Unit := 0x50
  const LETTER_X: Unit := 0x58

  // ------------------------------------------------------------------ the grammar

  /** Section 5.4 of ECMA-48. */
  predicate IsParameter(u: Unit) { 0x30 <= u <= 0x3f }

  predicate IsIntermediate(u: Unit) { 0x20 <= u <= 0x2f }

  predicate IsFinal(u: Unit) { 0x40 <= u <= 0x7e }

  /** `s[start..end]` is a control sequence body: parameters, then intermediates, then one final byte. */
  ghost predicate IsCsiBody(s: Str, start: nat, mid: nat, end: nat) {
    && start <= mid < end <= |s|
    && (forall k | start <= k < mid :: 0x30 <= s[k] <= 0x3f)
    && (forall k | mid <= k < end - 1 :: 0x20 <= s[k] <= 0x2f)
    && 0x40 <= s[end - 1] <= 0x7e
  }

  ghost predicate IsCsi(s: Str, start: nat, end: nat) {
    exists mid: nat :: IsCsiBody(s, start, mid, end)
  }

  /** ST, the string terminator of section 5.6 of ECMA-48, in its two-byte form. */
  predicate IsStringTerminator(s: Str, j: nat) {
    j + 1 < |s| && s[j] == ESC && s[j + 1] == BACKSLASH
  }

  predicate Terminates(s: Str, j: nat, allowBel: bool) {
    j < |s| && ((allowBel && s[j] == BEL) || IsStringTerminator(s, j))
  }

  /** `end` is just past the first terminator at or after `start`. */
  ghost predicate IsStringEnd(s: Str, start: nat, end: nat, allowBel: bool) {
    exists j: nat :: FirstTerminator(s, start, j, allowBel) && end == j + (if s[j] == ESC then 2 else 1)
  }

  ghost predicate FirstTerminator(s: Str, start: nat, j: nat, allowBel: bool) {
    && start <= j && Terminates(s, j, allowBel)
    && (forall k | start <= k < j :: !Terminates(s, k, allowBel))
  }

  /** OSC and APC strings may end in BEL. */
  predicate MayEndInBel(u: Unit) {
    u == RIGHT_BRACKET || u == UNDERSCORE
  }

  /** OSC, APC, DCS, PM and SOS. */
  predicate OpensString(u: Unit) {
    MayEndInBel(u) || u == LETTER_P || u == CARET || u == LETTER_X
  }

  predicate IsOpener(s: Str, i: nat) {
    i + 1 < |s| && s[i] == ESC && OpensString(s[i + 1])
  }

  // ------------------------------------------------------------------ the forward scan

  function CsiEnd(s: Str, j: nat, hasIntermediate: bool): (r: Option<nat>)
    ensures r.Some? ==> j < r.value <= |s|
    decreases |s| - j
  {
    if j >= |s| then None
    else if IsParameter(s[j]) && !hasIntermediate then CsiEnd(s, j + 1, hasIntermediate)
    else if IsIntermediate(s[j]) then CsiEnd(s, j + 1, true)
    else if IsFinal(s[j]) then Some(j + 1)
    else None
  }

  function ControlStringEnd(s: Str, j: nat, allowBel: bool): (r: Option<nat>)
    ensures r.Some? ==> j < r.value <= |s|
    decreases |s| - j
  {
    if j >= |s| then None
    else if allowBel && s[j] == BEL then Some(j + 1)
    else if IsStringTerminator(s, j) then Some(j + 2)
    else ControlStringEnd(s, j + 1, allowBel)
  }

  /** Where the escape sequence at `pos` ends, if one is there. */
  function AnsiEndAt(s: Str, pos: nat): (r: Option<nat>)
    ensures r.Some? ==> pos + 2 < r.value <= |s|
  {
    if pos + 1 >= |s| || s[pos] != ESC then None
    else if s[pos + 1] == LEFT_BRACKET then CsiEnd(s, pos + 2, false)
    else if OpensString(s[pos + 1]) then ControlStringEnd(s, pos + 2, MayEndInBel(s[pos + 1]))
    else None
  }

  /** After an intermediate byte only intermediates may follow, up to the final byte. */
  lemma {:induction false} TailEndMeets(s: Str, j: nat, end: nat)
    ensures CsiEnd(s, j, true) == Some(end) <==> IsCsiBody(s, j, j, end)
    decreases |s| - j
  {
    if j < |s| && IsIntermediate(s[j]) {
      TailEndMeets(s, j + 1, end);
    }
  }

  lemma {:induction false} CsiEndMeets(s: Str, j: nat, end: nat)
    ensures CsiEnd(s, j, false) == Some(end) <==> IsCsi(s, j, end)
    decreases |s| - j
  {
    if j < |s| && IsParameter(s[j]) {
      CsiEndMeets(s, j + 1, end);
      if IsCsi(s, j + 1, end) {
        var mid: nat :| IsCsiBody(s, j + 1, mid, end);
        assert IsCsiBody(s, j, mid, end);
      }
      if IsCsi(s, j, end) {
        var mid: nat :| IsCsiBody(s, j, mid, end);
        assert IsCsiBody(s, j + 1, mid, end);
      }
    } else if j < |s| && IsIntermediate(s[j]) {
      TailEndMeets(s, j, end);
      assert CsiEnd(s, j, false) == CsiEnd(s, j, true);
    } else if j < |s| && IsFinal(s[j]) {
      assert IsCsiBody(s, j, j, j + 1);
    }
  }

  lemma {:induction false} ControlStringEndMeets(s: Str, j: nat, allowBel: bool)
    ensures match ControlStringEnd(s, j, allowBel)
            case Some(end) => IsStringEnd(s, j, end, allowBel)
            case None => forall k: nat | j <= k :: !Terminates(s, k, allowBel)
    decreases |s| - j
  {
    if j < |s| {
      if Terminates(s, j, allowBel) {
        assert FirstTerminator(s, j, j, allowBel);
      } else {
        ControlStringEndMeets(s, j + 1, allowBel);
        if ControlStringEnd(s, j + 1, allowBel).Some? {
          var k: nat :| FirstTerminator(s, j + 1, k, allowBel) &&
                        ControlStringEnd(s, j + 1, allowBel).value == k + (if s[k] == ESC then 2 else 1);
          assert FirstTerminator(s, j, k, allowBel);
        }
      }
    }
  }

  /** A grammar reading of the scan: what stands between `pos` and `end` when a code is found there. */
  ghost predicate IsCodeAt(s: Str, pos: nat, end: nat) {
    && pos + 1 < |s| && s[pos] == ESC
    && (|| (s[pos + 1] == 0x5b && IsCsi(s, pos + 2, end))                                      // CSI
        || (s[pos + 1] in [0x5d, 0x5f] && IsStringEnd(s, pos + 2, end, true))                  // OSC, APC
        || (s[pos + 1] in [0x50, 0x5e, 0x58] && IsStringEnd(s, pos + 2, end, false)))          // DCS, PM, SOS
  }

  /** The scan answers `end` exactly for what the grammar calls an escape sequence from `pos` to `end`. */
  lemma ScanMeetsGrammar(s: Str, pos: nat, end: nat)
    ensures AnsiEndAt(s, pos) == Some(end) <==> IsCodeAt(s, pos, end)
  {
    if pos + 1 < |s| && s[pos] == ESC {
      if s[pos + 1] == LEFT_BRACKET {
        CsiEndMeets(s, pos + 2, end);
      } else if OpensString(s[pos + 1]) {
        var allowBel := MayEndInBel(s[pos + 1]);
        ControlStringEndMeets(s, pos + 2, allowBel);
        if IsStringEnd(s, pos + 2, end, allowBel) {
          var j: nat :| FirstTerminator(s, pos + 2, j, allowBel) && end == j + (if s[j] == ESC then 2 else 1);
          var found := ControlStringEnd(s, pos + 2, allowBel).value;
          var k: nat :| FirstTerminator(s, pos + 2, k, allowBel) && found == k + (if s[k] == ESC then 2 else 1);
          assert j == k;
        }
      }
    }
  }

  // ------------------------------------------------------------------ the scan is local

  /** `t` reads from `k` on what `s` reads in `s[j..end]`. */
  predicate SameFrom(s: Str, j: nat, end: nat, t: Str, k: nat) {
    j <= end <= |s| && k + end - j <= |t| && s[j..end] == t[k..k + end - j]
  }

  lemma SameNext(s: Str, j: nat, end: nat, t: Str, k: nat)
    requires SameFrom(s, j, end, t, k) && j < end
    ensures s[j] == t[k] && SameFrom(s, j + 1, end, t, k + 1)
  {
    var n := end - j;
    assert s[j] == s[j..end][0] && t[k] == t[k..k + n][0];
    assert s[j + 1..end] == s[j..end][1..] && t[k + 1..k + n] == t[k..k + n][1..];
  }

  lemma {:induction false} CsiEndMoves(s: Str, j: nat, t: Str, k: nat, hasIntermediate: bool)
    requires CsiEnd(s, j, hasIntermediate).Some? && SameFrom(s, j, CsiEnd(s, j, hasIntermediate).value, t, k)
    ensures CsiEnd(t, k, hasIntermediate) == Some(k + CsiEnd(s, j, hasIntermediate).value - j)
    decreases |s| - j
  {
    hide SameFrom;
    SameNext(s, j, CsiEnd(s, j, hasIntermediate).value, t, k);
    assert k < |t|;
    if IsParameter(s[j]) && !hasIntermediate {
      CsiEndMoves(s, j + 1, t, k + 1, hasIntermediate);
    } else if IsIntermediate(s[j]) {
      CsiEndMoves(s, j + 1, t, k + 1, true);
    }
  }

  lemma {:induction false} ControlStringEndMoves(s: Str, j: nat, t: Str, k: nat, allowBel: bool)
    requires ControlStringEnd(s, j, allowBel).Some? && SameFrom(s, j, ControlStringEnd(s, j, allowBel).value, t, k)
    ensures ControlStringEnd(t, k, allowBel) == Some(k + ControlStringEnd(s, j, allowBel).value - j)
    decreases |s| - j
  {
    hide SameFrom;
    var end := ControlStringEnd(s, j, allowBel).value;
    SameNext(s, j, end, t, k);
    if j + 1 < end {
      SameNext(s, j + 1, end, t, k + 1);
    }
    if !Terminates(s, j, allowBel) {
      ControlStringEndMoves(s, j + 1, t, k + 1, allowBel);
    }
  }

  /** A code is recognised from its own characters alone, wherever it stands and whatever surrounds it. */
  lemma ScanIsLocal(s: Str, pos: nat, t: Str, at: nat)
    requires AnsiEndAt(s, pos).Some? && SameFrom(s, pos, AnsiEndAt(s, pos).value, t, at)
    ensures AnsiEndAt(t, at) == Some(at + AnsiEndAt(s, pos).value - pos)
  {
    hide SameFrom;
    var end := AnsiEndAt(s, pos).value;
    SameNext(s, pos, end, t, at);
    SameNext(s, pos + 1, end, t, at + 1);
    if s[pos + 1] == LEFT_BRACKET {
      CsiEndMoves(s, pos + 2, t, at + 2, false);
    } else {
      ControlStringEndMoves(s, pos + 2, t, at + 2, MayEndInBel(s[pos + 1]));
    }
  }

  /** Scanning looks forward only. */
  lemma ScanLooksForward(s: Str, from: nat, pos: nat)
    requires from <= pos <= |s|
    ensures AnsiEndAt(s[from..], pos - from) ==
            match AnsiEndAt(s, pos) case None => None case Some(end) => Some(end - from)
  {
    hide AnsiEndAt;
    var t := s[from..];
    if AnsiEndAt(s, pos).Some? {
      ScanIsLocal(s, pos, t, pos - from);
    } else if AnsiEndAt(t, pos - from).Some? {
      ScanIsLocal(t, pos - from, s, pos);
    }
  }

  /** Cutting a string short never makes a code appear, and keeps every code that ends before the cut. */
  lemma ScanOfPrefix(s: Str, cut: nat, pos: nat)
    requires cut <= |s|
    ensures AnsiEndAt(s[..cut], pos) ==
            match AnsiEndAt(s, pos) case None => None case Some(end) => if end <= cut then Some(end) else None
  {
    hide AnsiEndAt;
    var t := s[..cut];
    if AnsiEndAt(t, pos).Some? {
      ScanIsLocal(t, pos, s, pos);
    } else if AnsiEndAt(s, pos).Some? && AnsiEndAt(s, pos).value <= cut {
      ScanIsLocal(s, pos, t, pos);
    }
  }

  // ------------------------------------------------------------------ the cached extractor

  /** What the backward pass must have found below `i`: the first BEL and the first ST at or after `i`. */
  ghost predicate NextMarks(s: Str, i: nat, nextBel: Option<nat>, nextSt: Option<nat>) {
    && (nextBel.Some? ==> i <= nextBel.value < |s| && s[nextBel.value] == BEL)
    && (forall k | i <= k < |s| && (nextBel.Some? ==> k < nextBel.value) :: s[k] != BEL)
    && (nextSt.Some? ==> i <= nextSt.value && IsStringTerminator(s, nextSt.value))
    && (forall k: nat | i <= k && (nextSt.Some? ==> k < nextSt.value) :: !IsStringTerminator(s, k))
  }

  /** Where a control string ends, from the nearest BEL and ST. */
  function EndFromMarks(allowBel: bool, nextBel: Option<nat>, nextSt: Option<nat>): Option<nat> {
    if allowBel && nextBel.Some? && (nextSt == None || nextBel.value < nextSt.value) then Some(nextBel.value + 1)
    else if nextSt == None then None
    else Some(nextSt.value + 2)
  }

  lemma {:induction false} MarksGiveTheEnd(s: Str, i: nat, j: nat, allowBel: bool, nextBel: Option<nat>, nextSt: Option<nat>)
    requires NextMarks(s, i, nextBel, nextSt) && i <= j
    requires forall k: nat | i <= k < j :: !IsStringTerminator(s, k)
    requires allowBel ==> forall k | i <= k < j && k < |s| :: s[k] != BEL
    ensures ControlStringEnd(s, j, allowBel) == EndFromMarks(allowBel, nextBel, nextSt)
    decreases |s| - j
  {
    if j < |s| && !Terminates(s, j, allowBel) {
      MarksGiveTheEnd(s, i, j + 1, allowBel, nextBel, nextSt);
    }
  }

  /** Every entry of a table holds what the forward scan would answer. */
  ghost predicate Sound(s: Str, ends: map<nat, Option<nat>>) {
    forall i | i in ends :: IsOpener(s, i) && ends[i] == ControlStringEnd(s, i + 2, MayEndInBel(s[i + 1]))
  }

  /** The table holds every control string that opens at or after `from`, terminated or not. */
  ghost predicate Covers(s: Str, ends: map<nat, Option<nat>>, from: nat) {
    forall i: nat | from <= i && IsOpener(s, i) :: i in ends
  }

  method CacheControlStringEnds(s: Str, from: nat) returns (ends: map<nat, Option<nat>>)
    requires from <= |s|
    ensures Sound(s, ends) && Covers(s, ends, from)
    ensures forall i | i in ends :: from <= i
  {
    hide ControlStringEnd, EndFromMarks;
    ends := map[];
    var nextBel: Option<nat>, nextSt: Option<nat> := None, None;
    var i := |s|;
    while i > from
      invariant from <= i <= |s|
      invariant NextMarks(s, i, nextBel, nextSt)
      invariant Sound(s, ends) && Covers(s, ends, i)
      invariant forall k | k in ends :: i <= k
    {
      i := i - 1;
      if s[i] == BEL {
        nextBel := Some(i);
      }
      if s[i] == ESC && i + 1 < |s| {
        var next := s[i + 1];
        if next == BACKSLASH {
          nextSt := Some(i);
        } else if OpensString(next) {
          assert NextMarks(s, i, nextBel, nextSt);
          assert s[i] != BEL && s[i + 1] != BEL && !IsStringTerminator(s, i) && !IsStringTerminator(s, i + 1);
          MarksGiveTheEnd(s, i, i + 2, MayEndInBel(next), nextBel, nextSt);
          ends := ends[i := EndFromMarks(MayEndInBel(next), nextBel, nextSt)];
        }
      }
    }
  }

  class AnsiCodeExtractor {
    const text: Str
    var controlStringEnds: Option<map<nat, Option<nat>>>

    ghost predicate Valid()
      reads this
    {
      controlStringEnds.Some? ==>
        && Sound(text, controlStringEnds.value)
        && forall i | i in controlStringEnds.value :: Covers(text, controlStringEnds.value, i)
    }

    constructor (s: Str)
      ensures Valid() && text == s && controlStringEnds == None
    {
      text := s;
      controlStringEnds := None;
    }

    /** Whatever was asked before, the answer is that of the stateless scan; once it is "unterminated" at `pos`, the
        table answers for every control string from there on. */
    method EndAt(pos: nat) returns (r: Option<nat>)
      requires Valid()
      modifies this
      ensures Valid()
      ensures r == AnsiEndAt(text, pos)
      ensures IsOpener(text, pos) && r == None ==>
                controlStringEnds.Some? && Covers(text, controlStringEnds.value, pos)
    {
      if pos >= |text| || text[pos] != ESC || pos + 1 >= |text| {
        return None;
      }
      var next := text[pos + 1];
      if next == LEFT_BRACKET {
        r := ScanCsi(pos + 2);
      } else if OpensString(next) {
        r := ExtractControlStringEnd(pos, MayEndInBel(next));
      } else {
        r := None;
      }
    }

    method ScanCsi(start: nat) returns (r: Option<nat>)
      requires Valid()
      ensures r == CsiEnd(text, start, false)
    {
      var j, hasIntermediate := start, false;
      while j < |text|
        invariant start <= j
        invariant CsiEnd(text, start, false) == CsiEnd(text, j, hasIntermediate)
      {
        if IsParameter(text[j]) && !hasIntermediate {
          j := j + 1;
        } else if IsIntermediate(text[j]) {
          hasIntermediate := true;
          j := j + 1;
        } else if IsFinal(text[j]) {
          return Some(j + 1);
        } else {
          return None;
        }
      }
      return None;
    }

    method ExtractControlStringEnd(pos: nat, allowBel: bool) returns (r: Option<nat>)
      requires Valid() && IsOpener(text, pos) && allowBel == MayEndInBel(text[pos + 1])
      modifies this
      ensures Valid()
      ensures r == ControlStringEnd(text, pos + 2, allowBel)
      ensures r == None ==> controlStringEnds.Some? && Covers(text, controlStringEnds.value, pos)
    {
      if controlStringEnds.Some? && pos in controlStringEnds.value {
        return controlStringEnds.value[pos];
      }
      var j := pos + 2;
      while j < |text|
        invariant pos + 2 <= j
        invariant ControlStringEnd(text, pos + 2, allowBel) == ControlStringEnd(text, j, allowBel)
      {
        if allowBel && text[j] == BEL {
          return Some(j + 1);
        }
        if text[j] == ESC && j + 1 < |text| && text[j + 1] == BACKSLASH {
          return Some(j + 2);
        }
        j := j + 1;
      }
      var ends := CacheControlStringEnds(text, pos);
      controlStringEnds := Some(ends);
      return None;
    }
  }
}
