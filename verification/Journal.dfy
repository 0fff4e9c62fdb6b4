/** Two sequence journals over a link that may lose everything in flight (packages/remote/src/index.ts). */
module Journal {
  import opened Numbers
  import opened Strings

  /** What one side keeps: the numbers it sends, the acknowledgement it has, the number it received last. */
  datatype View<T> = View(next: nat, acknowledged: int, received: int, pending: map<nat, T>)

  function FreshView<T>(): View<T> {
    View(1, 0, 0, map[])
  }

  function Append<T>(v: View<T>, payload: T): View<T> {
    v.(next := v.next + 1, pending := v.pending[v.next := payload])
  }

  function Acknowledge<T>(v: View<T>, sequence: int): View<T> {
    v.(acknowledged := if sequence > v.acknowledged then sequence else v.acknowledged,
       pending := map n | n in v.pending && n > sequence :: v.pending[n])
  }

  /** The pending numbers after `after`, in rising order, looked for in [lo, hi). */
  function ReplayNumbers(keys: set<nat>, after: int, lo: nat, hi: nat): (r: seq<nat>)
    ensures forall n :: n in r <==> lo <= n < hi && n in keys && n > after
    ensures forall i, j | 0 <= i < j < |r| :: r[i] < r[j]
    decreases hi - lo
  {
    if lo >= hi then []
    else if lo in keys && lo > after then
      var rest := ReplayNumbers(keys, after, lo + 1, hi);
      assert forall n :: n in [lo] + rest <==> n == lo || n in rest;
      assert forall i | 0 <= i < |rest| :: rest[i] in rest;
      [lo] + rest
    else ReplayNumbers(keys, after, lo + 1, hi)
  }

  datatype Envelope<T> = Envelope(sequence: nat, payload: T)

  /** The replayed envelopes: the pending messages with these numbers, in this order. */
  function Envelopes<T>(pending: map<nat, T>, numbers: seq<nat>): (r: seq<Envelope<T>>)
    requires forall n | n in numbers :: n in pending
    ensures |r| == |numbers| && forall i | 0 <= i < |r| :: r[i] == Envelope(numbers[i], pending[numbers[i]])
  {
    seq(|numbers|, i requires 0 <= i < |numbers| => Envelope(numbers[i], pending[numbers[i]]))
  }

  datatype Verdict = Accepted | Duplicate | Gap

  function Judge(received: int, sequence: int): Verdict {
    if sequence <= received then Duplicate else if sequence != received + 1 then Gap else Accepted
  }

  function Min(a: int, b: int): int {
    if a < b then a else b
  }

  class SequenceJournal<T> {
    var next: nat
    var acknowledged: int
    var received: int
    var pending: map<nat, T>

    ghost function Model(): View<T>
      reads this
    {
      View(next, acknowledged, received, pending)
    }

    constructor ()
      ensures Model() == FreshView()
    {
      next, acknowledged, received, pending := 1, 0, 0, map[];
    }

    method AppendMessage(payload: T) returns (sequence: nat)
      modifies this
      ensures Model() == Append(old(Model()), payload) && sequence == old(next)
    {
      sequence := next;
      next := next + 1;
      pending := pending[sequence := payload];
    }

    method AcknowledgeUpTo(sequence: int)
      modifies this
      ensures Model() == Acknowledge(old(Model()), sequence)
    {
      if sequence > acknowledged { acknowledged := sequence; }
      var keys := pending.Keys;
      ghost var before := pending;
      while keys != {}
        invariant keys <= before.Keys && next == old(next) && received == old(received)
        invariant acknowledged == Acknowledge(old(Model()), sequence).acknowledged
        invariant forall n: nat :: n in pending <==> n in before && (n in keys || n > sequence)
        invariant forall n | n in pending :: pending[n] == before[n]
        decreases keys
      {
        var n :| n in keys;
        keys := keys - {n};
        if n <= sequence { pending := pending - {n}; }
      }
      assert pending == Acknowledge(old(Model()), sequence).pending;
    }

    /** The pending messages after a number, sorted. */
    method Replay(after: int) returns (envelopes: seq<Envelope<T>>)
      requires forall n | n in pending :: 1 <= n < next
      ensures envelopes == Envelopes(pending, ReplayNumbers(pending.Keys, after, 1, next))
    {
      var numbers: seq<nat>;
      var rest := set n | n in pending && n > after;
      ghost var all := rest;
      numbers := [];
      while rest != {}
        invariant rest <= all && forall n :: n in numbers <==> n in all && n !in rest
        invariant forall i, j | 0 <= i < j < |numbers| :: numbers[i] < numbers[j]
        invariant forall n, m | n in numbers && m in rest :: n < m
        decreases rest
      {
        var least := LeastBy<nat>(rest, n => n as int);
        assert forall i | 0 <= i < |numbers| :: numbers[i] in numbers;
        numbers := numbers + [least];
        rest := rest - {least};
      }
      SortedIsUnique(numbers, ReplayNumbers(pending.Keys, after, 1, next));
      envelopes := Envelopes(pending, numbers);
    }

    method ReceiveNumber(sequence: int) returns (verdict: Verdict)
      modifies this`received
      ensures verdict == Judge(old(received), sequence)
      ensures received == if verdict == Accepted then sequence else old(received)
    {
      if sequence <= received { return Duplicate; }
      if sequence != received + 1 { return Gap; }
      received := sequence;
      verdict := Accepted;
    }
  }

  lemma HasMember(a: seq<nat>)
    ensures a != [] ==> exists n :: n in a
  {
    if a != [] { assert a[0] in a; }
  }

  lemma {:induction false} SortedIsUnique(a: seq<nat>, b: seq<nat>)
    requires forall n :: n in a <==> n in b
    requires forall i, j | 0 <= i < j < |a| :: a[i] < a[j]
    requires forall i, j | 0 <= i < j < |b| :: b[i] < b[j]
    ensures a == b
    decreases |a|
  {
    if a == [] || b == [] {
      HasMember(a);
      HasMember(b);
    } else {
      assert a[0] in b && b[0] in a;
      var i :| 0 <= i < |b| && b[i] == a[0];
      var j :| 0 <= j < |a| && a[j] == b[0];
      assert a[0] == b[0];
      forall n
        ensures n in a[1..] <==> n in b[1..]
      {
        assert n in a <==> n == a[0] || n in a[1..];
        assert n in b <==> n == b[0] || n in b[1..];
      }
      SortedIsUnique(a[1..], b[1..]);
    }
  }

  // ------------------------------------------------------------------ one receiver

  /** The numbers that a receiver accepts out of those that come in. */
  function AcceptedOf(received: int, numbers: seq<int>): seq<int>
    decreases |numbers|
  {
    if numbers == [] then []
    else if Judge(received, numbers[0]) == Accepted then [numbers[0]] + AcceptedOf(numbers[0], numbers[1..])
    else AcceptedOf(received, numbers[1..])
  }

  /** Whatever numbers come in, those accepted run on from the last one without a gap or a repetition, and the next one is
      accepted as soon as it comes. */
  lemma {:induction false} AcceptedRunOn(received: int, numbers: seq<int>)
    ensures forall i | 0 <= i < |AcceptedOf(received, numbers)| :: AcceptedOf(received, numbers)[i] == received + 1 + i
    ensures received + 1 in numbers <==> AcceptedOf(received, numbers) != []
    decreases |numbers|
  {
    if numbers != [] {
      AcceptedRunOn(received, numbers[1..]);
      AcceptedRunOn(numbers[0], numbers[1..]);
    }
  }

  // ------------------------------------------------------------------ the link

  /** A sender, a receiver, and what is in flight between them; nothing is in flight while disconnected. */
  datatype Link<T> = Link(
    sender: View<T>,
    received: nat,
    connected: bool,
    forward: seq<Envelope<T>>,   // messages in flight, oldest first
    backward: seq<nat>,          // acknowledgements in flight, oldest first
    appended: seq<T>,            // history: what the sender appended
    accepted: seq<T>)            // history: what the receiver accepted

  function FreshLink<T>(): Link<T> {
    Link(FreshView(), 0, true, [], [], [], [])
  }

  datatype Step<T> = DoAppend(payload: T) | DoDeliver | DoAcknowledge | DoDisconnect | DoReconnect(lastAck: int)

  /** A reconnecting receiver reports no more than it has received. */
  predicate Enabled<T>(k: Link<T>, step: Step<T>) {
    match step
    case DoAppend(_) => true
    case DoDeliver => k.connected && k.forward != []
    case DoAcknowledge => k.connected && k.backward != []
    case DoDisconnect => k.connected
    case DoReconnect(lastAck) => !k.connected && lastAck <= k.received
  }

  function Deliver<T>(k: Link<T>): Link<T>
    requires k.forward != []
  {
    var e := k.forward[0];
    var rest := k.(forward := k.forward[1..]);
    match Judge(k.received, e.sequence)
    case Accepted =>
      rest.(received := e.sequence, backward := k.backward + [e.sequence], accepted := k.accepted + [e.payload])
    case Duplicate => rest.(backward := k.backward + [k.received])
    case Gap => rest
  }

  function Apply<T>(k: Link<T>, step: Step<T>): Link<T>
    requires Enabled(k, step)
  {
    match step
    case DoAppend(payload) =>
      k.(sender := Append(k.sender, payload),
         forward := if k.connected then k.forward + [Envelope(k.sender.next, payload)] else k.forward,
         appended := k.appended + [payload])
    case DoDeliver => Deliver(k)
    case DoAcknowledge =>
      k.(sender := Acknowledge(k.sender, Min(k.backward[0], k.sender.next - 1)), backward := k.backward[1..])
    case DoDisconnect => k.(connected := false, forward := [], backward := [])
    case DoReconnect(lastAck) =>
      var after := if lastAck > k.sender.acknowledged then lastAck else k.sender.acknowledged;
      k.(connected := true, forward := Envelopes(k.sender.pending, ReplayNumbers(k.sender.pending.Keys, after, 1, k.sender.next)))
  }

  ghost predicate Reaches<T(!new)>(k: Link<T>, steps: seq<Step<T>>, m: Link<T>)
    decreases |steps|
  {
    if steps == [] then k == m else Enabled(k, steps[0]) && Reaches(Apply(k, steps[0]), steps[1..], m)
  }

  /** The numbers lo, lo+1, …, hi-1. */
  ghost predicate IsRun(s: seq<nat>, lo: nat, hi: nat) {
    lo <= hi && |s| == hi - lo && forall i | 0 <= i < |s| :: s[i] == lo + i
  }

  /** The messages in flight are the appended ones from number `lo` to the last sent. */
  ghost predicate Carries<T>(k: Link<T>, lo: nat) {
    && 1 <= lo <= |k.appended| + 1
    && |k.forward| == |k.appended| + 1 - lo
    && forall i | 0 <= i < |k.forward| :: k.forward[i] == Envelope(lo + i, k.appended[lo + i - 1])
  }

  /** While connected, what is in flight is an unbroken run up to the last number sent, starting no later than due. */
  ghost predicate InFlight<T>(k: Link<T>) {
    if k.connected then exists lo: nat :: 1 <= lo <= k.received + 1 && Carries(k, lo)
    else k.forward == [] && k.backward == []
  }

  ghost predicate Inv<T(!new)>(k: Link<T>) {
    && k.sender.next == |k.appended| + 1
    && 0 <= k.sender.acknowledged <= k.received <= |k.appended|
    && (forall n: nat :: n in k.sender.pending <==> k.sender.acknowledged < n < k.sender.next)
    && (forall n | n in k.sender.pending :: k.sender.pending[n] == k.appended[n - 1])
    && (forall i | 0 <= i < |k.backward| :: 0 <= k.backward[i] <= k.received)
    && InFlight(k)
    && k.accepted == k.appended[..k.received]
  }

  lemma AppendKeepsInv<T(!new)>(k: Link<T>, payload: T)
    requires Inv(k)
    ensures Inv(Apply(k, DoAppend(payload)))
  {
    var m := Apply(k, DoAppend(payload));
    assert m.appended[..m.received] == k.appended[..k.received];
    if k.connected {
      var lo: nat :| 1 <= lo <= k.received + 1 && Carries(k, lo);
      assert Carries(m, lo);
    }
  }

  lemma DeliverKeepsInv<T(!new)>(k: Link<T>)
    requires Inv(k) && Enabled(k, DoDeliver)
    ensures Inv(Deliver(k)) && Judge(k.received, k.forward[0].sequence) != Gap
  {
    var m := Deliver(k);
    var lo: nat :| 1 <= lo <= k.received + 1 && Carries(k, lo);
    assert k.forward[0].sequence == lo;
    assert Carries(m, lo + 1);
    if lo == k.received + 1 {
      assert k.appended[..lo] == k.appended[..lo - 1] + [k.appended[lo - 1]];
    }
  }

  lemma AcknowledgeKeepsInv<T(!new)>(k: Link<T>)
    requires Inv(k) && Enabled(k, DoAcknowledge)
    ensures Inv(Apply(k, DoAcknowledge))
  {
    var m := Apply(k, DoAcknowledge);
    assert forall i | 0 <= i < |m.backward| :: m.backward[i] == k.backward[i + 1];
    var lo: nat :| 1 <= lo <= k.received + 1 && Carries(k, lo);
    assert Carries(m, lo);
  }

  /** Replaying everything above `floor` that is also above `after` gives an unbroken run. */
  lemma {:induction false} ReplayIsARun(keys: set<nat>, floor: int, after: nat, lo: nat, hi: nat)
    requires lo <= hi && floor <= after && forall n: nat | lo <= n < hi :: n in keys <==> n > floor
    ensures var r := ReplayNumbers(keys, after, lo, hi);
            IsRun(r, if after + 1 < lo then lo else if after + 1 > hi then hi else after + 1, hi)
    decreases hi - lo
  {
    hide IsRun, ReplayNumbers;
    ReplayStep(keys, after, lo, hi);
    if lo == hi {
      NoRun(hi);
    } else {
      var rest := ReplayNumbers(keys, after, lo + 1, hi);
      ReplayIsARun(keys, floor, after, lo + 1, hi);
      if lo > after {
        assert lo in keys;
        RunInFront(lo, rest, hi);
      } else {
        assert [] + rest == rest;
      }
    }
  }

  lemma ReplayStep(keys: set<nat>, after: int, lo: nat, hi: nat)
    ensures ReplayNumbers(keys, after, lo, hi) ==
            if lo >= hi then [] else
            (if lo in keys && lo > after then [lo] else []) + ReplayNumbers(keys, after, lo + 1, hi)
  {
    if lo < hi {
      var rest := ReplayNumbers(keys, after, lo + 1, hi);
      assert [] + rest == rest;
    }
  }

  lemma NoRun(hi: nat)
    ensures IsRun([], hi, hi)
  {}

  lemma RunInFront(lo: nat, rest: seq<nat>, hi: nat)
    requires IsRun(rest, lo + 1, hi)
    ensures IsRun([lo] + rest, lo, hi)
  {}

  lemma ReconnectKeepsInv<T(!new)>(k: Link<T>, lastAck: int)
    requires Inv(k) && Enabled(k, DoReconnect(lastAck))
    ensures Inv(Apply(k, DoReconnect(lastAck)))
  {
    hide ReplayNumbers, IsRun;
    var after := if lastAck > k.sender.acknowledged then lastAck else k.sender.acknowledged;
    ReplayIsARun(k.sender.pending.Keys, k.sender.acknowledged, after, 1, k.sender.next);
    ReplayCarries(k, Apply(k, DoReconnect(lastAck)), after);
  }

  lemma ReplayCarries<T(!new)>(k: Link<T>, m: Link<T>, after: nat)
    requires Inv(k) && k.sender.acknowledged <= after <= k.received && m.appended == k.appended
    requires var r := ReplayNumbers(k.sender.pending.Keys, after, 1, k.sender.next);
             IsRun(r, after + 1, k.sender.next) && m.forward == Envelopes(k.sender.pending, r)
    ensures Carries(m, after + 1)
  {
    hide ReplayNumbers, InFlight;
    var r := ReplayNumbers(k.sender.pending.Keys, after, 1, k.sender.next);
    forall i | 0 <= i < |m.forward|
      ensures m.forward[i] == Envelope(after + 1 + i, m.appended[after + i])
    {
      assert r[i] in r;
    }
  }

  lemma StepKeepsInv<T(!new)>(k: Link<T>, step: Step<T>)
    requires Inv(k) && Enabled(k, step)
    ensures Inv(Apply(k, step))
  {
    match step
    case DoAppend(payload) => AppendKeepsInv(k, payload);
    case DoDeliver => DeliverKeepsInv(k);
    case DoAcknowledge => AcknowledgeKeepsInv(k);
    case DoDisconnect =>
    case DoReconnect(lastAck) => ReconnectKeepsInv(k, lastAck);
  }

  lemma {:induction false} RunKeepsInv<T(!new)>(k: Link<T>, steps: seq<Step<T>>, m: Link<T>)
    requires Inv(k) && Reaches(k, steps, m)
    ensures Inv(m)
    decreases |steps|
  {
    hide Inv, Apply;
    if steps != [] {
      StepKeepsInv(k, steps[0]);
      RunKeepsInv(Apply(k, steps[0]), steps[1..], m);
    }
  }

  lemma FreshInv<T(!new)>()
    ensures Inv(FreshLink<T>())
  {
    var k := FreshLink<T>();
    assert Carries(k, 1);
  }

  /**
   * Over every run with losses and reconnects: the accepted log is a prefix of the appended log, so every
   * message is accepted at most once and in order; pending is exactly the numbers above the
   * acknowledgement up to the last sent; and no delivery ever finds a gap.
   */
  lemma DeliveryIsInOrderAndOnce<T(!new)>(steps: seq<Step<T>>, m: Link<T>)
    requires Reaches(FreshLink<T>(), steps, m)
    ensures m.accepted <= m.appended && |m.accepted| == m.received
    ensures forall n: nat :: n in m.sender.pending <==> m.sender.acknowledged < n < m.sender.next
    ensures m.sender.next == |m.appended| + 1 && m.sender.acknowledged <= m.received
    ensures Enabled(m, DoDeliver) ==> Judge(m.received, m.forward[0].sequence) != Gap
  {
    FreshInv<T>();
    RunKeepsInv(FreshLink<T>(), steps, m);
    if Enabled(m, DoDeliver) { DeliverKeepsInv(m); }
  }

  /** From any point a reconnect that delivers everything brings the receiver fully up to date. */
  lemma {:induction false} DrainingCatchesUp<T(!new)>(k: Link<T>) returns (steps: seq<Step<T>>, m: Link<T>)
    requires Inv(k) && k.connected
    ensures Reaches(k, steps, m) && m.accepted == m.appended == k.appended
    decreases |k.forward|
  {
    if k.forward == [] {
      steps, m := [], k;
      var lo: nat :| 1 <= lo <= k.received + 1 && Carries(k, lo);
      assert k.appended[..k.received] == k.appended;
    } else {
      DeliverKeepsInv(k);
      var rest;
      rest, m := DrainingCatchesUp(Deliver(k));
      steps := [DoDeliver] + rest;
      assert steps[1..] == rest;
    }
  }
}
