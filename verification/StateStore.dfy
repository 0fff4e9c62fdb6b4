/** The SQLite store as a class whose methods update its tables in place (packages/state/src/index.ts). */
module StateStore {
  import opened Numbers
  import opened Strings
  import R = RemoteStore
  import O = Outbox

  type Id = string

  datatype Grant = Granted(leaseId: Id, fence: int, expiresAt: int) | Denied(error: R.LeaseError)

  class StateStore {
    var assignments: map<Id, R.Assignment>
    var leases: map<Id, R.Lease>
    var events: map<Id, R.Event>
    var receipts: map<Id, R.Receipt>
    var cursors: map<R.CursorKey, int>
    ghost var log: seq<R.Entry>

    var connections: map<Id, Id>
    var sendSequences: map<Id, int>
    var messages: map<Id, O.Message>
    ghost var issued: map<Id, seq<int>>
    ghost var highest: map<Id, int>
    ghost var retired: set<Id>

    var epochs: map<Id, int>
    var online: map<Id, bool>
    var closed: set<Id>

    ghost function Tables(): R.Tables
      reads this`assignments, this`leases, this`events, this`receipts, this`cursors, this`log
    {
      R.Tables(assignments, leases, events, receipts, cursors, log)
    }

    ghost function Ledger(): O.Ledger
      reads this`connections, this`sendSequences, this`messages, this`issued, this`highest, this`retired
    {
      O.Ledger(connections, sendSequences, messages, issued, highest, retired)
    }

    constructor ()
      ensures Tables() == R.EMPTY && Ledger() == O.EMPTY
      ensures epochs == map[] && online == map[] && closed == {}
    {
      assignments, leases, events, receipts, cursors, log := map[], map[], map[], map[], map[], [];
      connections, sendSequences, messages, issued, highest, retired := map[], map[], map[], map[], map[], {};
      epochs, online, closed := map[], map[], {};
    }

    // ---------------------------------------------------------------- queries

    /** SELECT COALESCE(MAX(fencing_token), 0) FROM remote_leases */
    method QueryMaxFence() returns (n: int)
      ensures n == R.MaxFence(leases)
    {
      n := 0;
      var rest := leases.Keys;
      while rest != {}
        invariant rest <= leases.Keys && n >= 0
        invariant forall l | l in leases && l !in rest :: leases[l].fence <= n
        invariant n == 0 || exists l :: l in leases && leases[l].fence == n
        decreases rest
      {
        var l :| l in rest;
        if leases[l].fence > n { n := leases[l].fence; }
        rest := rest - {l};
      }
    }

    /** SELECT id FROM remote_leases WHERE assignment_id = ? AND status = 'active' */
    method QueryActiveLease(assignmentId: Id) returns (lease: Option<Id>)
      ensures lease.Some? ==> && lease.value in leases && leases[lease.value].status == R.Active
                              && leases[lease.value].assignmentId == assignmentId
      ensures lease == None ==> forall l | l in leases && leases[l].status == R.Active :: leases[l].assignmentId != assignmentId
      ensures R.LeasesSound(Tables()) && lease.Some? ==>
                assignmentId in assignments && assignments[assignmentId].leaseId == lease
    {
      lease := None;
      var rest := leases.Keys;
      while rest != {}
        invariant rest <= leases.Keys
        invariant forall l | l in leases && l !in rest && leases[l].status == R.Active :: leases[l].assignmentId != assignmentId
        decreases rest
      {
        var l :| l in rest;
        if leases[l].status == R.Active && leases[l].assignmentId == assignmentId { return Some(l); }
        rest := rest - {l};
      }
    }

    /** SELECT COALESCE(MAX(sequence), 0) FROM execution_events WHERE execution_id = ? */
    method QueryMaxOrdinal(executionId: Id) returns (n: nat)
      ensures n == R.MaxOrdinal(events, executionId)
    {
      n := 0;
      var rest := events.Keys;
      while rest != {}
        invariant rest <= events.Keys
        invariant forall m | m in events && m !in rest && events[m].executionId == executionId :: events[m].ordinal <= n
        invariant n == 0 || exists m :: m in events && events[m].executionId == executionId && events[m].ordinal == n
        decreases rest
      {
        var m :| m in rest;
        if events[m].executionId == executionId && events[m].ordinal > n { n := events[m].ordinal; }
        rest := rest - {m};
      }
    }

    /** SELECT COALESCE(MAX(p.sequence), 0) over the outbound messages of the worker's connections. */
    method GetMaxProtocolSequenceForWorker(worker: Id) returns (n: int)
      ensures O.IsMaxSequence(Ledger(), worker, n)
    {
      ghost var g := Ledger();
      var best: Option<int> := None;
      var rest := messages.Keys;
      while rest != {}
        invariant rest <= messages.Keys && g == Ledger()
        invariant best.None? ==> forall m | m in messages && m !in rest :: !O.Owns(g, worker, m)
        invariant best.Some? ==> forall m | m in messages && m !in rest && O.Owns(g, worker, m) :: messages[m].sequence <= best.value
        invariant best.Some? ==> exists m :: O.Owns(g, worker, m) && messages[m].sequence == best.value
        decreases rest
      {
        var m :| m in rest;
        rest := rest - {m};
        if messages[m].connectionId in connections && connections[messages[m].connectionId] == worker {
          assert O.Owns(g, worker, m);
          if best.None? || messages[m].sequence > best.value { best := Some(messages[m].sequence); }
        }
      }
      n := if best.Some? then best.value else 0;
    }

    // ---------------------------------------------------------------- assignments and leases

    method AssignRemote(id: Id, workerId: Id) returns (inserted: bool)
      modifies this`assignments
      ensures Tables() == R.Assign(old(Tables()), id, workerId)
      ensures inserted <==> id !in old(assignments)
    {
      if id in assignments { return false; }
      assignments := assignments[id := R.Assignment(workerId, R.Assigned, None)];
      inserted := true;
    }

    method AcquireRemoteLease(assignmentId: Id, workerId: Id, ttl: int, now: int, leaseId: Id) returns (grant: Grant)
      modifies this`assignments, this`leases
      ensures Tables() == R.Acquire(old(Tables()), assignmentId, workerId, ttl, now, leaseId)
      ensures grant == match R.AcquireRefusal(old(Tables()), assignmentId, workerId, ttl, leaseId)
                       case Some(error) => Denied(error)
                       case None => Granted(leaseId, R.MaxFence(old(leases)) + 1, now + ttl)
    {
      if ttl <= 0 || ttl > MAX_SAFE_INTEGER { return Denied(R.BadTtl); }
      if assignmentId !in assignments { return Denied(R.NotFound); }
      var a := assignments[assignmentId];
      if a.status != R.Assigned && a.status != R.Expired { return Denied(R.NotAvailable); }
      if a.status == R.Assigned && a.workerId != workerId { return Denied(R.OwnerMismatch); }
      var leased := QueryActiveLease(assignmentId);
      if leased.Some? { return Denied(R.AlreadyLeased); }
      if leaseId in leases { return Denied(R.DuplicateLeaseId); }
      var highestFence := QueryMaxFence();
      var fence := highestFence + 1;
      leases := leases[leaseId := R.Lease(assignmentId, workerId, R.Active, now + ttl, fence)];
      assignments := assignments[assignmentId := R.Assignment(workerId, R.Dispatched, Some(leaseId))];
      grant := Granted(leaseId, fence, now + ttl);
    }

    method RenewRemoteLease(leaseId: Id, workerId: Id, ttl: int, now: int) returns (changed: bool)
      modifies this`leases
      ensures Tables() == R.Renew(old(Tables()), leaseId, workerId, ttl, now)
      ensures changed <==> R.Renewable(old(Tables()), leaseId, workerId, ttl, now)
    {
      changed := 0 < ttl <= MAX_SAFE_INTEGER && leaseId in leases && leases[leaseId].workerId == workerId
                 && leases[leaseId].status == R.Active && leases[leaseId].expiresAt > now;
      if changed { leases := leases[leaseId := leases[leaseId].(expiresAt := now + ttl)]; }
    }

    method ReleaseRemoteLease(leaseId: Id, workerId: Id, fence: int) returns (changed: bool)
      modifies this`leases
      ensures Tables() == R.Release(old(Tables()), leaseId, workerId, fence)
      ensures changed <==> R.Releasable(old(Tables()), leaseId, workerId, fence)
    {
      changed := leaseId in leases && leases[leaseId].workerId == workerId && leases[leaseId].fence == fence
                 && leases[leaseId].status == R.Active;
      if changed { leases := leases[leaseId := leases[leaseId].(status := R.Released)]; }
    }

    method UpdateRemoteAssignmentStatus(id: Id, status: R.AssignmentStatus)
      modifies this`assignments
      ensures Tables() == R.SetStatus(old(Tables()), id, status)
    {
      if id in assignments { assignments := assignments[id := assignments[id].(status := status)]; }
    }

    /** Mark every overdue lease, then expire the assignments that still wait on one of them. */
    method ExpireRemoteLeases(now: int) returns (expired: set<Id>)
      modifies this`assignments, this`leases
      ensures Tables() == R.Expire(old(Tables()), now)
      ensures forall l :: l in expired <==> l in old(leases) && R.Overdue(old(leases)[l], now)
    {
      ghost var t := Tables();
      expired := set l | l in leases && R.Overdue(leases[l], now);
      leases := map l | l in leases :: if l in expired then leases[l].(status := R.Lapsed) else leases[l];
      ExpireAssignmentsOf(expired);
      ExpiryIs(t, expired, now, leases, assignments);
    }

    static lemma ExpiryIs(t: R.Tables, ids: set<Id>, now: int, someLeases: map<Id, R.Lease>, some: map<Id, R.Assignment>)
      requires forall l :: l in ids <==> l in t.leases && R.Overdue(t.leases[l], now)
      requires someLeases.Keys == t.leases.Keys
      requires forall l | l in t.leases :: someLeases[l] == if l in ids then t.leases[l].(status := R.Lapsed) else t.leases[l]
      requires some.Keys == t.assignments.Keys
      requires forall a | a in t.assignments ::
                 some[a] == if WaitsOn(t.assignments[a], ids) then t.assignments[a].(status := R.Expired) else t.assignments[a]
      ensures R.Expire(t, now) == t.(leases := someLeases, assignments := some)
    {
      hide R.Overdue;
      assert someLeases == R.Expire(t, now).leases;
      assert some == R.Expire(t, now).assignments;
    }

    static predicate WaitsOn(a: R.Assignment, ids: set<Id>) {
      a.status in {R.Dispatched, R.Running} && a.leaseId.Some? && a.leaseId.value in ids
    }

    method ExpireAssignmentsOf(ids: set<Id>)
      modifies this`assignments
      ensures assignments.Keys == old(assignments).Keys
      ensures forall a | a in assignments ::
                assignments[a] == if WaitsOn(old(assignments)[a], ids) then old(assignments)[a].(status := R.Expired)
                                  else old(assignments)[a]
    {
      var todo := ids;
      ghost var was := assignments;
      while todo != {}
        invariant todo <= ids && assignments.Keys == was.Keys
        invariant forall a | a in was ::
                    assignments[a] == if WaitsOn(was[a], ids - todo) then was[a].(status := R.Expired) else was[a]
        decreases todo
      {
        var l :| l in todo;
        todo := todo - {l};
        assignments := map a | a in assignments ::
          if WaitsOn(assignments[a], {l}) then assignments[a].(status := R.Expired) else assignments[a];
      }
    }

    method AcceptRemoteEvent(d: R.Delivery, now: int) returns (reply: R.Reply)
      modifies this`events, this`receipts, this`cursors, this`log
      ensures Tables() == R.Accept(old(Tables()), d, now)
      ensures reply == R.AcceptReply(old(Tables()), d, now)
    {
      hide R.UnderLiveLease, R.Accept, R.MaxOrdinal;
      ghost var t := Tables();
      RefusedChangesNothing(t, d, now);
      LeaseIgnoresLog(t, d, now);
      if !R.UnderLiveLease(R.Tables(assignments, leases, events, receipts, cursors, []), d, now) {
        return R.Refused(R.StaleOrInvalidLease, None);
      }
      if d.sequence < 1 || d.sequence > MAX_SAFE_INTEGER { return R.Refused(R.InvalidSequence, None); }
      if d.messageId in events {
        if events[d.messageId].payload != d.payload { return R.Refused(R.MessageIdConflict, None); }
        if d.messageId in receipts {
          var stored := receipts[d.messageId];
          if |stored.connectionId| > 0 && (stored.connectionId != d.ConnectionId() || stored.sequence != d.sequence) {
            return R.Refused(R.MessageIdConflict, None);
          }
          return R.Taken(true, stored.sequence);
        }
        return R.Taken(true, d.sequence);
      }
      if d.Key() in cursors && d.sequence != cursors[d.Key()] + 1 {
        return R.Refused(if d.sequence <= cursors[d.Key()] then R.StaleSequence else R.SequenceGap, Some(cursors[d.Key()]));
      }
      var last := QueryMaxOrdinal(d.assignmentId);
      log := log + [R.EntryOf(t, d)];
      events := events[d.messageId := R.Event(d.assignmentId, last + 1, d.payload)];
      receipts := receipts[d.messageId := R.Receipt(d.ConnectionId(), d.sequence)];
      cursors := cursors[d.Key() := d.sequence];
      reply := R.Taken(false, d.sequence);
      AcceptanceIs(t, d, now);
    }

    static lemma RefusedChangesNothing(t: R.Tables, d: R.Delivery, now: int)
      ensures R.AcceptReply(t, d, now) != R.Taken(false, d.sequence) ==> R.Accept(t, d, now) == t
    {
      hide R.AcceptReply, R.MaxOrdinal;
    }

    static lemma AcceptanceIs(t: R.Tables, d: R.Delivery, now: int)
      requires R.AcceptReply(t, d, now) == R.Taken(false, d.sequence)
      ensures var ordinal := R.MaxOrdinal(t.events, d.assignmentId) + 1;
              R.Accept(t, d, now) ==
              t.(events := t.events[d.messageId := R.Event(d.assignmentId, ordinal, d.payload)],
                 receipts := t.receipts[d.messageId := R.Receipt(d.ConnectionId(), d.sequence)],
                 cursors := t.cursors[d.Key() := d.sequence],
                 log := t.log + [R.EntryOf(t, d)])
    {
      hide R.AcceptReply, R.MaxOrdinal;
    }

    static lemma LeaseIgnoresLog(t: R.Tables, d: R.Delivery, now: int)
      ensures R.UnderLiveLease(t.(log := []), d, now) <==> R.UnderLiveLease(t, d, now)
    {}

    // ---------------------------------------------------------------- outbound messages

    method OpenWorkerConnection(connection: Id, worker: Id)
      modifies this`connections, this`closed
      ensures Ledger() == O.Open(old(Ledger()), connection, worker)
      ensures connections == old(connections)[connection := worker]
      ensures closed == old(closed) - {connection}
    {
      connections := connections[connection := worker];
      closed := closed - {connection};
    }

    method NextProtocolSequenceForWorker(worker: Id) returns (next: int)
      modifies this`sendSequences, this`issued
      ensures next == O.Next(old(Ledger()), worker)
      ensures Ledger() == O.Issue(old(Ledger()), worker)
    {
      ghost var g := Ledger();
      var persisted := GetMaxProtocolSequenceForWorker(worker);
      MaxIsUnique(g, worker, persisted, O.MaxSequence(g, worker));
      var current := if worker in sendSequences then sendSequences[worker] else 0;
      next := (if persisted > current then persisted else current) + 1;
      sendSequences := sendSequences[worker := next];
      issued := issued[worker := O.Issued(g, worker) + [next]];
    }

    static lemma MaxIsUnique(g: O.Ledger, worker: Id, a: int, b: int)
      requires O.IsMaxSequence(g, worker, a) && O.IsMaxSequence(g, worker, b)
      ensures a == b
    {}

    method RecordProtocolMessage(m: Id, connection: Id, sequence: int) returns (inserted: bool)
      modifies this`messages
      ensures Ledger() == O.Record(old(Ledger()), m, connection, sequence)
      ensures inserted <==> O.Recordable(old(Ledger()), m, connection, sequence)
    {
      inserted := m !in messages
                  && forall k | k in messages :: !(messages[k].connectionId == connection && messages[k].sequence == sequence);
      if inserted { messages := messages[m := O.Message(connection, sequence, false)]; }
    }

    /** The controller's check and the cumulative update that follows it. */
    method AcknowledgeUpTo(worker: Id, ack: int) returns (accepted: bool)
      modifies this`messages, this`highest
      ensures Ledger() == O.Acknowledge(old(Ledger()), worker, ack)
      ensures accepted <==> O.Acceptable(old(Ledger()), worker, ack)
    {
      ghost var g := Ledger();
      var max := GetMaxProtocolSequenceForWorker(worker);
      MaxIsUnique(g, worker, max, O.MaxSequence(g, worker));
      hide O.IsMaxSequence, O.MaxSequence, O.Acknowledge;
      UnacceptableChangesNothing(g, worker, ack);
      if ack < 1 || ack > max { return false; }
      messages := map m | m in messages ::
        if messages[m].connectionId in connections && connections[messages[m].connectionId] == worker && messages[m].sequence <= ack
        then messages[m].(acked := true) else messages[m];
      highest := highest[worker := O.Max(O.Highest(g, worker), ack)];
      accepted := true;
      AcknowledgementIs(g, worker, ack, messages);
    }

    static lemma UnacceptableChangesNothing(g: O.Ledger, worker: Id, ack: int)
      ensures !O.Acceptable(g, worker, ack) ==> O.Acknowledge(g, worker, ack) == g
    {
      hide O.Acceptable;
    }

    static lemma AcknowledgementIs(g: O.Ledger, worker: Id, ack: int, some: map<Id, O.Message>)
      requires O.Acceptable(g, worker, ack) && some.Keys == g.messages.Keys
      requires forall m | m in g.messages ::
                 some[m] == if O.Covered(g, worker, m, ack) then g.messages[m].(acked := true) else g.messages[m]
      ensures O.Acknowledge(g, worker, ack) ==
              g.(messages := some, highest := g.highest[worker := O.Max(O.Highest(g, worker), ack)])
    {
      hide O.Acceptable, O.Covered, O.Max, O.Highest;
    }

    method AckProtocolMessageById(m: Id)
      modifies this`messages, this`retired
      ensures Ledger() == O.Retire(old(Ledger()), m)
    {
      if m in messages {
        messages := messages[m := messages[m].(acked := true)];
        retired := retired + {m};
      }
    }

    /** The replay query: unsettled messages of the worker, by sequence. */
    method ListUnackedProtocolMessagesForWorker(worker: Id) returns (rows: seq<Id>)
      ensures O.IsReplayList(Ledger(), worker, rows)
    {
      ghost var g := Ledger();
      var rest := set m | m in messages && messages[m].connectionId in connections
                          && connections[messages[m].connectionId] == worker && !messages[m].acked;
      ghost var all := rest;
      var table := messages;
      rows := [];
      while rest != {}
        invariant rest <= all && forall m :: m in rows <==> m in all && m !in rest
        invariant forall i, j | 0 <= i < j < |rows| ::
                    rows[i] != rows[j] && rows[i] in messages && rows[j] in messages
                    && messages[rows[i]].sequence <= messages[rows[j]].sequence
        invariant forall i, m | 0 <= i < |rows| && m in rest ::
                    rows[i] in messages && messages[rows[i]].sequence <= messages[m].sequence
        decreases rest
      {
        var least := LeastBy(rest, m => if m in table then table[m].sequence else 0);
        rows := rows + [least];
        rest := rest - {least};
      }
    }

    // ---------------------------------------------------------------- workers

    method ActivateWorkerConnectionEpoch(worker: Id) returns (epoch: int)
      modifies this`epochs
      ensures epoch == (if worker in old(epochs) then old(epochs)[worker] else 0) + 1
      ensures epochs == old(epochs)[worker := epoch]
    {
      epoch := (if worker in epochs then epochs[worker] else 0) + 1;
      epochs := epochs[worker := epoch];
    }

    method SetWorkerOnline(worker: Id, value: bool)
      modifies this`online
      ensures online == old(online)[worker := value]
    {
      online := online[worker := value];
    }

    method CloseWorkerConnection(connection: Id)
      modifies this`closed
      ensures closed == old(closed) + {connection}
    {
      closed := closed + {connection};
    }
  }
}
