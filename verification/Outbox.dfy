/**
 * The durable outbound ledger: issued sequence numbers, recorded messages, cumulative acknowledgements and
 * replay lists (packages/state/src/index.ts, packages/remote/src/index.ts).
 */
module Outbox {
  import opened Numbers
  import opened Strings

  type Id = string

  /** An outbound row of protocol_messages, keyed by its message id. */
  datatype Message = Message(connectionId: Id, sequence: int, acked: bool)

  datatype Ledger = Ledger(
    connections: map<Id, Id>,     // connection -> worker
    sent: map<Id, int>,           // worker -> send_sequence of its row "worker:<id>"
    messages: map<Id, Message>,
    issued: map<Id, seq<int>>,    // history: every number handed out, per worker
    highest: map<Id, int>,        // history: the highest acknowledgement accepted, per worker
    retired: set<Id>)             // history: messages retired one by one

  const EMPTY: Ledger := Ledger(map[], map[], map[], map[], map[], {})

  /** The message belongs to the worker: its connection is one of the worker's. */
  predicate Owns(g: Ledger, worker: Id, m: Id) {
    && m in g.messages
    && g.messages[m].connectionId in g.connections
    && g.connections[g.messages[m].connectionId] == worker
  }

  function Sent(g: Ledger, worker: Id): int {
    if worker in g.sent then g.sent[worker] else 0
  }

  function Highest(g: Ledger, worker: Id): int {
    if worker in g.highest then g.highest[worker] else 0
  }

  function Issued(g: Ledger, worker: Id): seq<int> {
    if worker in g.issued then g.issued[worker] else []
  }

  /** `r` is COALESCE(MAX(sequence), 0) over the worker's messages. */
  ghost predicate IsMaxSequence(g: Ledger, worker: Id, r: int) {
    && (forall m | Owns(g, worker, m) :: g.messages[m].sequence <= r)
    && ((r == 0 && forall m :: !Owns(g, worker, m)) || exists m :: Owns(g, worker, m) && g.messages[m].sequence == r)
  }

  ghost function MaxOver(g: Ledger, worker: Id, ids: set<Id>): (r: Option<int>)
    requires ids <= g.messages.Keys
    ensures r.None? ==> forall m | m in ids :: !Owns(g, worker, m)
    ensures r.Some? ==> forall m | m in ids && Owns(g, worker, m) :: g.messages[m].sequence <= r.value
    ensures r.Some? ==> exists m :: m in ids && Owns(g, worker, m) && g.messages[m].sequence == r.value
  {
    if ids == {} then None
    else
      var m :| m in ids;
      var rest := MaxOver(g, worker, ids - {m});
      assert forall k | k in ids && k != m :: k in ids - {m};
      if Owns(g, worker, m) && (rest.None? || g.messages[m].sequence > rest.value) then Some(g.messages[m].sequence) else rest
  }

  ghost function MaxSequence(g: Ledger, worker: Id): (r: int)
    ensures IsMaxSequence(g, worker, r)
  {
    var r := MaxOver(g, worker, g.messages.Keys);
    if r.Some? then r.value else 0
  }

  function Max(a: int, b: int): int {
    if a > b then a else b
  }

  // ------------------------------------------------------------------ transactions

  function Open(g: Ledger, connection: Id, worker: Id): Ledger {
    g.(connections := g.connections[connection := worker])
  }

  /** The next number for a worker survives reconnects and restarts: it passes every recorded and every issued one. */
  ghost function Next(g: Ledger, worker: Id): int {
    Max(MaxSequence(g, worker), Sent(g, worker)) + 1
  }

  ghost function Issue(g: Ledger, worker: Id): Ledger {
    g.(sent := g.sent[worker := Next(g, worker)],
       issued := g.issued[worker := Issued(g, worker) + [Next(g, worker)]])
  }

  /** INSERT OR IGNORE under two unique constraints: the message id, and the connection's sequence number. */
  predicate Recordable(g: Ledger, m: Id, connection: Id, sequence: int) {
    && m !in g.messages
    && forall k | k in g.messages :: !(g.messages[k].connectionId == connection && g.messages[k].sequence == sequence)
  }

  function Record(g: Ledger, m: Id, connection: Id, sequence: int): Ledger {
    if Recordable(g, m, connection, sequence) then g.(messages := g.messages[m := Message(connection, sequence, false)]) else g
  }

  /** An acknowledgement is accepted only up to the highest recorded number. */
  ghost predicate Acceptable(g: Ledger, worker: Id, ack: int) {
    1 <= ack <= MaxSequence(g, worker)
  }

  function Covered(g: Ledger, worker: Id, m: Id, ack: int): bool
    requires m in g.messages
  {
    Owns(g, worker, m) && g.messages[m].sequence <= ack
  }

  ghost function Acknowledge(g: Ledger, worker: Id, ack: int): Ledger {
    if !Acceptable(g, worker, ack) then g
    else
      g.(messages := map m | m in g.messages ::
           if Covered(g, worker, m, ack) then g.messages[m].(acked := true) else g.messages[m],
         highest := g.highest[worker := Max(Highest(g, worker), ack)])
  }

  function Retire(g: Ledger, m: Id): Ledger {
    if m in g.messages then g.(messages := g.messages[m := g.messages[m].(acked := true)], retired := g.retired + {m}) else g
  }

  // ------------------------------------------------------------------ runs

  datatype Step =
    | DoOpen(connection: Id, worker: Id)
    | DoIssue(worker: Id)                              // the process dies before recording
    | DoSend(worker: Id, connection: Id, message: Id)  // issue and record, in one handler
    | DoAcknowledge(worker: Id, ack: int)
    | DoRetire(message: Id)

  /** A connection id never moves to another worker, and a worker sends on a connection of its own. */
  predicate Enabled(g: Ledger, step: Step) {
    match step
    case DoOpen(connection, worker) => connection in g.connections ==> g.connections[connection] == worker
    case DoSend(worker, connection, _) => connection in g.connections && g.connections[connection] == worker
    case _ => true
  }

  ghost function Apply(g: Ledger, step: Step): Ledger {
    match step
    case DoOpen(connection, worker) => Open(g, connection, worker)
    case DoIssue(worker) => Issue(g, worker)
    case DoSend(worker, connection, m) => Record(Issue(g, worker), m, connection, Next(g, worker))
    case DoAcknowledge(worker, ack) => Acknowledge(g, worker, ack)
    case DoRetire(m) => Retire(g, m)
  }

  ghost predicate Reaches(g: Ledger, steps: seq<Step>, h: Ledger)
    decreases |steps|
  {
    if steps == [] then g == h else Enabled(g, steps[0]) && Reaches(Apply(g, steps[0]), steps[1..], h)
  }

  // ------------------------------------------------------------------ what every step keeps

  /** Recorded numbers were issued, are distinct per worker, and belong to a known connection. */
  ghost predicate NumbersSound(g: Ledger) {
    && (forall m | m in g.messages :: g.messages[m].connectionId in g.connections && g.messages[m].sequence >= 1)
    && (forall w, m | Owns(g, w, m) :: g.messages[m].sequence <= Sent(g, w))
    && (forall w, k, m | Owns(g, w, k) && Owns(g, w, m) && g.messages[k].sequence == g.messages[m].sequence :: k == m)
    && (forall w :: Sent(g, w) >= 0)
  }

  ghost predicate IssuesSound(g: Ledger) {
    forall w :: Increasing(Issued(g, w)) && (Issued(g, w) != [] ==> Issued(g, w)[|Issued(g, w)| - 1] == Sent(g, w))
  }

  /** A message is settled exactly when a cumulative acknowledgement covers it or it was retired by itself. */
  ghost predicate Window(g: Ledger) {
    && (forall w, m | Owns(g, w, m) :: g.messages[m].acked <==> g.messages[m].sequence <= Highest(g, w) || m in g.retired)
    && (forall w :: 0 <= Highest(g, w) <= MaxSequence(g, w))
    && g.retired <= g.messages.Keys
  }

  ghost predicate Inv(g: Ledger) {
    NumbersSound(g) && IssuesSound(g) && Window(g)
  }

  /** Nothing recorded is lost, renumbered, moved or unsettled. */
  ghost predicate Grows(g: Ledger, h: Ledger) {
    && (forall m | m in g.messages ::
          && m in h.messages
          && h.messages[m].connectionId == g.messages[m].connectionId
          && h.messages[m].sequence == g.messages[m].sequence)
    && (forall c | c in g.connections :: c in h.connections && h.connections[c] == g.connections[c])
  }

  lemma MaxSequenceGrows(g: Ledger, h: Ledger, w: Id)
    requires Grows(g, h) && NumbersSound(g) && NumbersSound(h)
    ensures MaxSequence(g, w) <= MaxSequence(h, w)
  {
    hide MaxSequence;
    assert IsMaxSequence(g, w, MaxSequence(g, w)) && IsMaxSequence(h, w, MaxSequence(h, w));
    if exists m :: Owns(g, w, m) && g.messages[m].sequence == MaxSequence(g, w) {
      var m :| Owns(g, w, m) && g.messages[m].sequence == MaxSequence(g, w);
      assert Owns(h, w, m);
    } else if exists m :: Owns(h, w, m) {
      var m :| Owns(h, w, m);
      assert h.messages[m].sequence >= 1;
    }
  }

  lemma MaxSequenceBelowSent(g: Ledger, w: Id)
    requires NumbersSound(g)
    ensures MaxSequence(g, w) <= Sent(g, w) && Next(g, w) == Sent(g, w) + 1
  {
    hide MaxSequence;
    assert IsMaxSequence(g, w, MaxSequence(g, w));
  }

  /** The same messages with the same numbers, owned by the same workers. */
  ghost predicate SameRows(g: Ledger, h: Ledger) {
    && h.messages.Keys == g.messages.Keys
    && (forall m | m in g.messages ::
          h.messages[m].connectionId == g.messages[m].connectionId && h.messages[m].sequence == g.messages[m].sequence)
    && (forall c | c in g.connections :: c in h.connections && h.connections[c] == g.connections[c])
  }

  lemma SameOwners(g: Ledger, h: Ledger)
    requires SameRows(g, h) && NumbersSound(g)
    ensures forall w, m :: Owns(h, w, m) <==> Owns(g, w, m)
  {}

  lemma SameRowsKeepNumbers(g: Ledger, h: Ledger)
    requires SameRows(g, h) && NumbersSound(g) && forall w :: Sent(h, w) >= Sent(g, w)
    ensures NumbersSound(h) && Grows(g, h)
  {
    hide Sent;
    SameOwners(g, h);
  }

  /** Messages, numbers and acknowledgements unchanged: so is the window. */
  lemma SameWindow(g: Ledger, h: Ledger)
    requires Window(g) && NumbersSound(g) && NumbersSound(h) && Grows(g, h)
    requires h.messages == g.messages && h.highest == g.highest && h.retired == g.retired
    requires forall w, m :: Owns(h, w, m) <==> Owns(g, w, m)
    ensures Window(h)
  {
    hide MaxSequence, NumbersSound, Grows, Owns;
    forall w
      ensures Highest(h, w) == Highest(g, w) && MaxSequence(g, w) <= MaxSequence(h, w)
    {
      MaxSequenceGrows(g, h, w);
    }
  }

  lemma SameIssues(g: Ledger, h: Ledger)
    requires IssuesSound(g) && h.sent == g.sent && h.issued == g.issued
    ensures IssuesSound(h)
  {
    assert forall w :: Issued(h, w) == Issued(g, w) && Sent(h, w) == Sent(g, w);
  }

  lemma OpenKeepsInv(g: Ledger, connection: Id, worker: Id)
    requires Inv(g) && (connection in g.connections ==> g.connections[connection] == worker)
    ensures Inv(Open(g, connection, worker)) && Grows(g, Open(g, connection, worker))
  {
    hide MaxSequence, NumbersSound, IssuesSound, Window;
    var h := Open(g, connection, worker);
    SameOwners(g, h);
    SameRowsKeepNumbers(g, h);
    SameWindow(g, h);
    SameIssues(g, h);
  }

  lemma IssueKeepsIssues(g: Ledger, worker: Id)
    requires IssuesSound(g) && Next(g, worker) > Sent(g, worker)
    ensures IssuesSound(Issue(g, worker))
  {
    hide Next, Increasing;
    var h := Issue(g, worker);
    IncreasingSnoc(Issued(g, worker), Next(g, worker));
    assert forall w :: Issued(h, w) == if w == worker then Issued(g, w) + [Next(g, w)] else Issued(g, w);
    assert forall w :: Sent(h, w) == if w == worker then Next(g, w) else Sent(g, w);
  }

  lemma IssueKeepsInv(g: Ledger, worker: Id)
    requires Inv(g)
    ensures Inv(Issue(g, worker)) && Grows(g, Issue(g, worker))
  {
    hide MaxSequence, NumbersSound, IssuesSound, Window;
    var h := Issue(g, worker);
    MaxSequenceBelowSent(g, worker);
    SameOwners(g, h);
    SameRowsKeepNumbers(g, h);
    SameWindow(g, h);
    IssueKeepsIssues(g, worker);
  }

  /** A message recorded under the number just issued is new to the window: no acknowledgement covers it. */
  lemma RecordKeepsNumbers(g: Ledger, m: Id, connection: Id, worker: Id)
    requires NumbersSound(g) && connection in g.connections && g.connections[connection] == worker
    requires Sent(g, worker) >= 1 && forall k | Owns(g, worker, k) :: g.messages[k].sequence < Sent(g, worker)
    ensures var h := Record(g, m, connection, Sent(g, worker));
            && NumbersSound(h) && Grows(g, h)
            && (m !in g.messages ==> h.messages == g.messages[m := Message(connection, Sent(g, worker), false)])
            && (m in g.messages ==> h == g)
  {
    forall k | k in g.messages && g.messages[k].connectionId == connection
      ensures g.messages[k].sequence != Sent(g, worker)
    {
      assert Owns(g, worker, k);
    }
    var h := Record(g, m, connection, Sent(g, worker));
    assert forall w :: Sent(h, w) == Sent(g, w);
    assert forall w, k | k != m :: Owns(h, w, k) <==> Owns(g, w, k);
    assert m !in g.messages ==> forall w :: Owns(h, w, m) <==> w == worker;
  }

  lemma RecordKeepsWindow(g: Ledger, h: Ledger, m: Id, connection: Id, worker: Id, sequence: int)
    requires Window(g) && NumbersSound(g) && NumbersSound(h) && Grows(g, h) && m !in g.messages
    requires connection in g.connections && g.connections[connection] == worker && Highest(g, worker) < sequence
    requires h == g.(messages := g.messages[m := Message(connection, sequence, false)])
    ensures Window(h)
  {
    hide MaxSequence, NumbersSound, Grows;
    forall w
      ensures Highest(h, w) == Highest(g, w) && MaxSequence(g, w) <= MaxSequence(h, w)
    {
      MaxSequenceGrows(g, h, w);
    }
    forall w, k | Owns(h, w, k)
      ensures h.messages[k].acked <==> h.messages[k].sequence <= Highest(h, w) || k in h.retired
    {
      if k != m { assert Owns(g, w, k); }
    }
  }

  lemma RecordKeepsInv(g: Ledger, m: Id, connection: Id, worker: Id)
    requires Inv(g) && connection in g.connections && g.connections[connection] == worker
    requires Sent(g, worker) >= 1 && forall k | Owns(g, worker, k) :: g.messages[k].sequence < Sent(g, worker)
    requires Highest(g, worker) < Sent(g, worker)
    ensures Inv(Record(g, m, connection, Sent(g, worker))) && Grows(g, Record(g, m, connection, Sent(g, worker)))
  {
    hide MaxSequence, NumbersSound, IssuesSound, Window;
    var h := Record(g, m, connection, Sent(g, worker));
    RecordKeepsNumbers(g, m, connection, worker);
    if m !in g.messages { RecordKeepsWindow(g, h, m, connection, worker, Sent(g, worker)); }
    SameIssues(g, h);
  }

  lemma SendKeepsInv(g: Ledger, worker: Id, connection: Id, m: Id)
    requires Inv(g) && connection in g.connections && g.connections[connection] == worker
    ensures Inv(Apply(g, DoSend(worker, connection, m))) && Grows(g, Apply(g, DoSend(worker, connection, m)))
  {
    hide MaxSequence, NumbersSound, IssuesSound;
    var h := Issue(g, worker);
    IssueKeepsInv(g, worker);
    MaxSequenceBelowSent(g, worker);
    SentIsFresh(g, worker);
    RecordKeepsInv(h, m, connection, worker);
    GrowsOnwards(g, h, Record(h, m, connection, Next(g, worker)));
  }

  lemma GrowsOnwards(g: Ledger, h: Ledger, k: Ledger)
    requires Grows(g, h) && Grows(h, k)
    ensures Grows(g, k)
  {}

  lemma SentIsFresh(g: Ledger, worker: Id)
    requires Inv(g)
    ensures var h := Issue(g, worker);
            && Sent(h, worker) == Next(g, worker) >= 1 && Highest(h, worker) < Sent(h, worker)
            && forall k | Owns(h, worker, k) :: h.messages[k].sequence < Sent(h, worker)
  {
    hide MaxSequence;
    MaxSequenceBelowSent(g, worker);
    var h := Issue(g, worker);
    forall k | Owns(h, worker, k)
      ensures h.messages[k].sequence < Sent(h, worker)
    {
      assert Owns(g, worker, k);
    }
  }

  lemma AcknowledgeKeepsWindow(g: Ledger, worker: Id, ack: int)
    requires Window(g) && NumbersSound(g) && Acceptable(g, worker, ack)
    requires NumbersSound(Acknowledge(g, worker, ack)) && Grows(g, Acknowledge(g, worker, ack))
    ensures Window(Acknowledge(g, worker, ack))
  {
    hide MaxSequence, NumbersSound, Grows;
    var h := Acknowledge(g, worker, ack);
    forall w
      ensures Highest(h, w) == if w == worker then Max(Highest(g, w), ack) else Highest(g, w)
      ensures MaxSequence(g, w) <= MaxSequence(h, w)
    {
      MaxSequenceGrows(g, h, w);
    }
    forall w, k | Owns(h, w, k)
      ensures h.messages[k].acked <==> h.messages[k].sequence <= Highest(h, w) || k in h.retired
    {
      assert Owns(g, w, k);
    }
  }

  lemma AcknowledgeKeepsInv(g: Ledger, worker: Id, ack: int)
    requires Inv(g)
    ensures Inv(Acknowledge(g, worker, ack)) && Grows(g, Acknowledge(g, worker, ack))
  {
    hide MaxSequence, NumbersSound, IssuesSound, Window;
    if Acceptable(g, worker, ack) {
      var h := Acknowledge(g, worker, ack);
      SameRowsKeepNumbers(g, h);
      AcknowledgeKeepsWindow(g, worker, ack);
      SameIssues(g, h);
    }
  }

  lemma RetireKeepsWindow(g: Ledger, m: Id)
    requires Window(g) && NumbersSound(g) && m in g.messages && NumbersSound(Retire(g, m)) && Grows(g, Retire(g, m))
    ensures Window(Retire(g, m))
  {
    hide MaxSequence, NumbersSound, Grows;
    var h := Retire(g, m);
    forall w
      ensures Highest(h, w) == Highest(g, w) && MaxSequence(g, w) <= MaxSequence(h, w)
    {
      MaxSequenceGrows(g, h, w);
    }
    forall w, k | Owns(h, w, k)
      ensures h.messages[k].acked <==> h.messages[k].sequence <= Highest(h, w) || k in h.retired
    {
      assert Owns(g, w, k);
    }
  }

  lemma RetireKeepsInv(g: Ledger, m: Id)
    requires Inv(g)
    ensures Inv(Retire(g, m)) && Grows(g, Retire(g, m))
  {
    hide MaxSequence, NumbersSound, IssuesSound, Window;
    if m in g.messages {
      var h := Retire(g, m);
      SameRowsKeepNumbers(g, h);
      RetireKeepsWindow(g, m);
      SameIssues(g, h);
    }
  }

  lemma StepKeepsInv(g: Ledger, step: Step)
    requires Inv(g) && Enabled(g, step)
    ensures Inv(Apply(g, step)) && Grows(g, Apply(g, step))
  {
    hide NumbersSound, IssuesSound, Window, MaxSequence;
    match step
    case DoOpen(connection, worker) => OpenKeepsInv(g, connection, worker);
    case DoIssue(worker) => IssueKeepsInv(g, worker);
    case DoSend(worker, connection, m) => SendKeepsInv(g, worker, connection, m);
    case DoAcknowledge(worker, ack) => AcknowledgeKeepsInv(g, worker, ack);
    case DoRetire(m) => RetireKeepsInv(g, m);
  }

  lemma {:induction false} RunKeepsInv(g: Ledger, steps: seq<Step>, h: Ledger)
    requires Inv(g) && Reaches(g, steps, h)
    ensures Inv(h) && Grows(g, h)
    decreases |steps|
  {
    hide Inv, Grows, Apply;
    if steps == [] {
      GrowsRefl(g);
    } else {
      var mid := Apply(g, steps[0]);
      StepKeepsInv(g, steps[0]);
      RunKeepsInv(mid, steps[1..], h);
      GrowsOnwards(g, mid, h);
    }
  }

  lemma GrowsRefl(g: Ledger)
    ensures Grows(g, g)
  {}

  // ------------------------------------------------------------------ replay

  /** `rows` is the answer to the replay query: the worker's unsettled messages by sequence. */
  ghost predicate IsReplayList(g: Ledger, worker: Id, rows: seq<Id>) {
    && (forall m :: m in rows <==> Owns(g, worker, m) && !g.messages[m].acked)
    && (forall i, j | 0 <= i < j < |rows| ::
          rows[i] != rows[j] && rows[i] in g.messages && rows[j] in g.messages
          && g.messages[rows[i]].sequence <= g.messages[rows[j]].sequence)
  }

  /**
   * The window theorem: at every point of every run, what is replayed to a worker is, in strictly rising
   * order, exactly the recorded messages above the highest accepted acknowledgement that were not retired.
   */
  lemma ReplayIsTheWindow(steps: seq<Step>, g: Ledger, worker: Id, rows: seq<Id>)
    requires Reaches(EMPTY, steps, g) && IsReplayList(g, worker, rows)
    ensures forall m :: m in rows <==>
              Owns(g, worker, m) && g.messages[m].sequence > Highest(g, worker) && m !in g.retired
    ensures forall i, j | 0 <= i < j < |rows| ::
              rows[i] in g.messages && rows[j] in g.messages
              && g.messages[rows[i]].sequence < g.messages[rows[j]].sequence
  {
    RunKeepsInv(EMPTY, steps, g);
    hide Reaches, IssuesSound, MaxSequence;
    forall i, j | 0 <= i < j < |rows|
      ensures rows[i] in g.messages && rows[j] in g.messages
      ensures g.messages[rows[i]].sequence < g.messages[rows[j]].sequence
    {
      assert rows[i] in rows && rows[j] in rows;
      assert Owns(g, worker, rows[i]) && Owns(g, worker, rows[j]);
    }
  }

  /** The order of a replay leaves no choice: there is only one such list. */
  lemma {:induction false} ReplayListIsUnique(g: Ledger, worker: Id, a: seq<Id>, b: seq<Id>)
    requires NumbersSound(g) && IsReplayList(g, worker, a) && IsReplayList(g, worker, b)
    ensures a == b
  {
    SameMembersSameOrder(g, worker, a, b, 0);
  }

  lemma {:induction false} SameMembersSameOrder(g: Ledger, worker: Id, a: seq<Id>, b: seq<Id>, n: nat)
    requires NumbersSound(g) && IsReplayList(g, worker, a) && IsReplayList(g, worker, b)
    requires n <= |a| && n <= |b| && a[..n] == b[..n]
    ensures a == b
    decreases |a| - n
  {
    if n < |a| && n < |b| {
      NextIsForced(g, worker, a, b, n);
      assert a[..n + 1] == a[..n] + [a[n]] && b[..n + 1] == b[..n] + [b[n]];
      SameMembersSameOrder(g, worker, a, b, n + 1);
    } else if n < |a| {
      NothingMissing(g, worker, a, b, n);
    } else if n < |b| {
      NothingMissing(g, worker, b, a, n);
    }
  }

  /** A list cannot stop while the other goes on. */
  lemma NothingMissing(g: Ledger, worker: Id, a: seq<Id>, b: seq<Id>, n: nat)
    requires IsReplayList(g, worker, a) && IsReplayList(g, worker, b) && n < |a| && n <= |b| && a[..n] == b[..n]
    ensures n < |b|
  {
    assert a[n] in a && a[n] in b;
    var j :| 0 <= j < |b| && b[j] == a[n];
    SamePrefix(a, b, n);
  }

  lemma NextIsForced(g: Ledger, worker: Id, a: seq<Id>, b: seq<Id>, n: nat)
    requires NumbersSound(g) && IsReplayList(g, worker, a) && IsReplayList(g, worker, b)
    requires n < |a| && n < |b| && a[..n] == b[..n]
    ensures a[n] == b[n]
  {
    hide NumbersSound;
    assert a[n] in a && b[n] in b && a[n] in b && b[n] in a;
    var i :| 0 <= i < |a| && a[i] == b[n];
    var j :| 0 <= j < |b| && b[j] == a[n];
    SamePrefix(a, b, n);
    assert g.messages[a[n]].sequence <= g.messages[b[n]].sequence <= g.messages[a[n]].sequence;
    NumberIdentifies(g, worker, a[n], b[n]);
  }

  lemma NumberIdentifies(g: Ledger, worker: Id, k: Id, m: Id)
    requires NumbersSound(g) && Owns(g, worker, k) && Owns(g, worker, m) && g.messages[k].sequence == g.messages[m].sequence
    ensures k == m
  {}

  lemma SamePrefix(a: seq<Id>, b: seq<Id>, n: nat)
    requires n <= |a| && n <= |b| && a[..n] == b[..n]
    ensures forall k | 0 <= k < n :: a[k] == b[k]
  {
    assert forall k | 0 <= k < n :: a[..n][k] == a[k] && b[..n][k] == b[k];
  }

  /**
   * No acknowledgement covers a message recorded later: a message sent at any point of any run is numbered
   * above every number issued and every acknowledgement accepted before, and waits for replay.
   */
  lemma LaterMessagesAreUncovered(steps: seq<Step>, g: Ledger, worker: Id, connection: Id, m: Id)
    requires Reaches(EMPTY, steps, g) && m !in g.messages
    requires connection in g.connections && g.connections[connection] == worker
    ensures var h := Apply(g, DoSend(worker, connection, m));
            && m in h.messages && h.messages[m] == Message(connection, Sent(g, worker) + 1, false)
            && h.messages[m].sequence > Highest(h, worker)
            && (forall i | 0 <= i < |Issued(g, worker)| :: Issued(g, worker)[i] < h.messages[m].sequence)
            && Issued(h, worker) == Issued(g, worker) + [h.messages[m].sequence]
  {
    RunKeepsInv(EMPTY, steps, g);
    hide Reaches, MaxSequence, NumbersSound, IssuesSound, Window, Grows;
    SendIsUncovered(g, worker, connection, m);
  }

  lemma SendIsUncovered(g: Ledger, worker: Id, connection: Id, m: Id)
    requires Inv(g) && m !in g.messages && connection in g.connections && g.connections[connection] == worker
    ensures var h := Apply(g, DoSend(worker, connection, m));
            && m in h.messages && h.messages[m] == Message(connection, Sent(g, worker) + 1, false)
            && h.messages[m].sequence > Highest(h, worker)
            && (forall i | 0 <= i < |Issued(g, worker)| :: Issued(g, worker)[i] < h.messages[m].sequence)
            && Issued(h, worker) == Issued(g, worker) + [h.messages[m].sequence]
  {
    hide MaxSequence, NumbersSound, Window, Grows, Recordable;
    IssueKeepsInv(g, worker);
    MaxSequenceBelowSent(g, worker);
    SentIsFresh(g, worker);
    RecordKeepsNumbers(Issue(g, worker), m, connection, worker);
    IssuedBelowSent(g, worker);
  }

  lemma IssuedBelowSent(g: Ledger, worker: Id)
    requires IssuesSound(g)
    ensures forall i | 0 <= i < |Issued(g, worker)| :: Issued(g, worker)[i] <= Sent(g, worker)
  {}
}
