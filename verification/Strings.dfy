/** JavaScript strings as sequences of UTF-16 code units, and the few built-ins the models use. */
module Strings {

  datatype Option<+T> = None | Some(value: T)

  /** One UTF-16 code unit. */
  type Unit = u: int | 0 <= u < 0x1_0000

  type Str = seq<Unit>

  const ESC: Unit := 0x1b
  const BEL: Unit := 0x07
  const BACKSLASH: Unit := 0x5c
  const SEMICOLON: Unit := 0x3b
  const COLON: Unit := 0x3a

  /** `pat` occurs in `s` at index `i`. */
  predicate At(s: Str, pat: Str, i: nat) {
    i + |pat| <= |s| && s[i..i + |pat|] == pat
  }

  /** The first occurrence of `pat` in `s` at or after `from`. */
  function IndexFrom(s: Str, pat: Str, from: nat): (r: Option<nat>)
    ensures r.Some? ==> from <= r.value && At(s, pat, r.value)
    ensures forall k: nat | from <= k && (r.Some? ==> k < r.value) :: !At(s, pat, k)
    decreases |s| - from
  {
    if from + |pat| > |s| then None
    else if At(s, pat, from) then Some(from)
    else IndexFrom(s, pat, from + 1)
  }

  function IndexOf(s: Str, pat: Str): (r: Option<nat>)
    ensures r.Some? ==> At(s, pat, r.value)
    ensures forall k: nat | r.Some? ==> k < r.value :: !At(s, pat, k)
  {
    IndexFrom(s, pat, 0)
  }

  predicate StartsWith(s: Str, pat: Str) {
    pat <= s
  }

  predicate EndsWith(s: Str, pat: Str) {
    |pat| <= |s| && s[|s| - |pat|..] == pat
  }

  predicate IsDigit(u: Unit) {
    0x30 <= u <= 0x39
  }

  predicate AllDigits(s: Str) {
    forall i | 0 <= i < |s| :: IsDigit(s[i])
  }

  /** The value of a run of decimal digits. */
  function DecimalValue(s: Str): nat
    requires AllDigits(s)
  {
    if s == [] then 0 else 10 * DecimalValue(s[..|s| - 1]) + (s[|s| - 1] - 0x30)
  }

  /** `String(n)`, for a natural number. */
  function Decimal(n: nat): (s: Str)
    ensures s != []
    ensures AllDigits(s) && DecimalValue(s) == n
  {
    if n < 10 then [0x30 + n]
    else
      var s := Decimal(n / 10) + [0x30 + n % 10];
      assert s[..|s| - 1] == Decimal(n / 10);
      s
  }

  /** `s.split(sep)` for a one-unit separator: never empty. */
  function Split(s: Str, sep: Unit): (parts: seq<Str>)
    ensures |parts| >= 1
    ensures sep !in s ==> parts == [s]
  {
    match IndexFrom(s, [sep], 0)
    case None =>
      SingletonIndex(s, sep);
      [s]
    case Some(i) =>
      SingletonIndex(s, sep);
      [s[..i]] + Split(s[i + 1..], sep)
  }

  /** `parts.join(sep)`. */
  function Join(parts: seq<Str>, sep: Unit): Str {
    if parts == [] then []
    else if |parts| == 1 then parts[0]
    else parts[0] + [sep] + Join(parts[1..], sep)
  }

  lemma SingletonIndex(s: Str, u: Unit)
    ensures forall k: nat :: At(s, [u], k) <==> k < |s| && s[k] == u
    ensures u in s <==> exists k: nat :: At(s, [u], k)
  {
    forall k: nat
      ensures At(s, [u], k) <==> k < |s| && s[k] == u
    {
      if k < |s| { assert s[k..k + 1] == [s[k]]; }
    }
    if u in s {
      var k :| 0 <= k < |s| && s[k] == u;
      assert At(s, [u], k);
    }
  }

  /** The first occurrence of one unit. */
  lemma FirstUnit(s: Str, u: Unit, k: nat)
    requires k < |s| && s[k] == u && (forall i | 0 <= i < k :: s[i] != u)
    ensures IndexOf(s, [u]) == Some(k)
  {
    hide IndexOf;
    SingletonIndex(s, u);
    assert At(s, [u], k);
  }

  lemma {:induction false} SplitConcat(a: Str, b: Str, sep: Unit)
    ensures Split(a + [sep] + b, sep) == Split(a, sep) + Split(b, sep)
    decreases |a|
  {
    hide At;
    var s := a + [sep] + b;
    SingletonIndex(a, sep);
    match IndexOf(a, [sep]) {
      case None =>
        assert sep !in a;
        assert s[|a|] == sep && s[..|a|] == a && s[|a| + 1..] == b;
        FirstUnit(s, sep, |a|);
      case Some(i) =>
        assert a[i] == sep && s[i] == sep;
        forall k | 0 <= k < i
          ensures s[k] != sep
        {
          assert !At(a, [sep], k);
        }
        FirstUnit(s, sep, i);
        assert s[..i] == a[..i] && s[i + 1..] == a[i + 1..] + [sep] + b;
        SplitConcat(a[i + 1..], b, sep);
        assert [a[..i]] + (Split(a[i + 1..], sep) + Split(b, sep)) == ([a[..i]] + Split(a[i + 1..], sep)) + Split(b, sep);
    }
  }

  /** Splitting undoes joining, when no part holds the separator. */
  lemma {:induction false} SplitOfJoin(parts: seq<Str>, sep: Unit)
    requires parts != [] && (forall p | p in parts :: sep !in p)
    ensures Split(Join(parts, sep), sep) == parts
  {
    if |parts| > 1 {
      SplitOfJoin(parts[1..], sep);
      SplitConcat(parts[0], Join(parts[1..], sep), sep);
    }
  }

  /** Joining undoes splitting. */
  lemma {:induction false} JoinOfSplit(s: Str, sep: Unit)
    ensures Join(Split(s, sep), sep) == s
    decreases |s|
  {
    match IndexOf(s, [sep]) {
      case None =>
      case Some(i) =>
        JoinOfSplit(s[i + 1..], sep);
        assert s == s[..i] + s[i..i + 1] + s[i + 1..];
        var parts := [s[..i]] + Split(s[i + 1..], sep);
        assert parts[1..] == Split(s[i + 1..], sep);
    }
  }

  /** Every part of a split is a stretch of the string, without separators. */
  lemma {:induction false} SplitHolds(s: Str, sep: Unit)
    ensures forall p | p in Split(s, sep) :: sep !in p && forall u | u in p :: u in s
    decreases |s|
  {
    hide At, IndexOf, IndexFrom;
    SingletonIndex(s, sep);
    match IndexOf(s, [sep]) {
      case None =>
      case Some(i) =>
        SplitHolds(s[i + 1..], sep);
        forall k | 0 <= k < i
          ensures s[k] != sep
        {
          assert !At(s, [sep], k);
        }
        assert s == s[..i] + s[i..i + 1] + s[i + 1..];
    }
  }

  function Flatten(parts: seq<Str>): Str {
    if parts == [] then [] else parts[0] + Flatten(parts[1..])
  }

  lemma {:induction false} FlattenAppend(a: seq<Str>, b: seq<Str>)
    ensures Flatten(a + b) == Flatten(a) + Flatten(b)
  {
    if a == [] {
      assert a + b == b;
    } else {
      assert (a + b)[1..] == a[1..] + b;
      FlattenAppend(a[1..], b);
    }
  }
}
