/** The controller: its handlers update the store, the sessions and the routes (packages/remote/src/index.ts). */
module RemoteFabric {
  import opened Numbers
  import opened Strings
  import opened Topology
  import R = RemoteStore
  import H = RemoteHandlers
  import Status = RemoteStatus
  import O = Outbox
  import S = Sessions
  import D = StateStore

  type Id = Topology.Id

  /** What an inbound envelope carries. */
  datatype Payload =
    | Heartbeat
    | Ack(sequence: int)
    | Execution(kind: H.Kind, assignmentId: Id, leaseId: Id, fence: int, messageId: Id, body: string)
    | Nothing

  function DeliveryOf(b: S.Binding, e: S.Envelope, p: Payload): R.Delivery
    requires p.Execution?
  {
    R.Delivery(p.assignmentId, b.workerId, p.leaseId, p.fence, e.sequence, p.messageId, p.body, Some(b.connectionId))
  }

  ghost function RetireAll(g: O.Ledger, rows: seq<Id>): O.Ledger
    decreases |rows|
  {
    if rows == [] then g else O.Retire(RetireAll(g, rows[..|rows| - 1]), rows[|rows| - 1])
  }

  class RemoteFabricController {
    const state: D.StateStore
    const routes: LoomRouteRegistry
    const leaseMs: int
    var transports: map<Id, Id>
    var connections: map<Id, S.Binding>
    var receiveSequences: map<Id, int>
    ghost var bound: map<Id, S.Binding>
    ghost var handed: map<Id, seq<int>>

    /** Every current connection is on record for its worker. */
    ghost predicate Known()
      reads this`connections, state`connections
    {
      forall w | w in connections ::
        && connections[w].connectionId in state.connections
        && state.connections[connections[w].connectionId] == w
    }

    ghost predicate Valid()
      reads this`connections, state`connections, routes
    {
      routes.Valid() && Known()
    }

    ghost function Net(): S.Net
      reads this, state, routes
    {
      S.Net(state.epochs, state.online, state.closed, transports, connections,
            routes.routes, routes.nodes, routes.nextRevision, receiveSequences, bound, handed)
    }

    constructor (store: D.StateStore, registry: LoomRouteRegistry, leaseTime: int)
      requires registry.Valid()
      ensures Valid() && state == store && routes == registry && leaseMs == leaseTime
      ensures transports == map[] && connections == map[] && receiveSequences == map[] && bound == map[] && handed == map[]
    {
      state, routes, leaseMs := store, registry, leaseTime;
      transports, connections, receiveSequences, bound, handed := map[], map[], map[], map[], map[];
    }

    /** Attach a transport; fails half-way when the registry refuses the worker's id or the connection's. */
    method Attach(worker: Id, connection: Id, instance: Id) returns (attached: bool)
      requires Valid() && (connection in state.connections ==> state.connections[connection] == worker)
      modifies this`transports, this`connections, this`bound, this`handed
      modifies state`epochs, state`online, state`connections, state`closed, routes
      ensures Valid() && attached == S.Routable(routes.addressable, worker, connection)
      ensures Net() == S.Attach(old(Net()), routes.addressable, worker, connection, instance)
      ensures state.Ledger() == O.Open(old(state.Ledger()), connection, worker)
    {
      hide O.Open, S.Attach, S.Epoch, S.Handed, S.Routable, LoomRouteRegistry.Valid, Known;
      ghost var n := Net();
      Bind(worker, connection, instance);
      attached := AddRoute(worker, connection);
      AttachIs(n, Net(), routes.addressable, worker, connection, instance);
    }

    /** Register the worker's node, then its route; either may be refused. */
    method AddRoute(worker: Id, connection: Id) returns (added: bool)
      requires routes.Valid()
      modifies routes
      ensures routes.Valid() && added == S.Routable(routes.addressable, worker, connection)
      ensures routes.nodes == if routes.addressable(worker) then old(routes.nodes) + {worker} else old(routes.nodes)
      ensures routes.nextRevision == old(routes.nextRevision) + if routes.addressable(worker) then 1 else 0
      ensures routes.routes == if added then old(routes.routes)[worker := Route(worker, Some(connection), true, routes.nextRevision)]
                               else old(routes.routes)
    {
      hide IsIdentifier, LoomRouteRegistry.Valid;
      var registered := routes.RegisterNode(worker);
      if !registered { return false; }
      var route := routes.ReplaceConnection(worker, connection);
      added := route.Some?;
    }

    static lemma AttachIs(n: S.Net, m: S.Net, canAddress: Id -> bool, worker: Id, connection: Id, instance: Id)
      requires worker in m.epochs && m.epochs[worker] == (if worker in n.epochs then n.epochs[worker] else 0) + 1
      requires m.epochs == n.epochs[worker := m.epochs[worker]] && m.online == n.online[worker := true]
      requires m.closed == n.closed - {connection} && m.transports == n.transports[worker := connection]
      requires var b := S.Binding(worker, connection, instance, m.epochs[worker]);
               m.current == n.current[worker := b] && m.bound == n.bound[connection := b]
      requires m.handed == n.handed[worker := (if worker in n.handed then n.handed[worker] else []) + [m.epochs[worker]]]
      requires m.received == n.received
      requires m.nodes == if canAddress(worker) then n.nodes + {worker} else n.nodes
      requires m.nextRevision == n.nextRevision + if canAddress(worker) then 1 else 0
      requires m.routes == if S.Routable(canAddress, worker, connection)
                           then n.routes[worker := Route(worker, Some(connection), true, m.nextRevision)] else n.routes
      ensures m == S.Attach(n, canAddress, worker, connection, instance)
    {}

    /** Give the worker its next epoch, connection and transport. */
    method Bind(worker: Id, connection: Id, instance: Id)
      requires Known() && (connection in state.connections ==> state.connections[connection] == worker)
      modifies this`transports, this`connections, this`bound, this`handed
      modifies state`epochs, state`online, state`connections, state`closed
      ensures Known()
      ensures worker in state.epochs && state.epochs[worker] == (if worker in old(state.epochs) then old(state.epochs)[worker] else 0) + 1
      ensures state.epochs == old(state.epochs)[worker := state.epochs[worker]]
      ensures connections == old(connections)[worker := S.Binding(worker, connection, instance, state.epochs[worker])]
      ensures bound == old(bound)[connection := S.Binding(worker, connection, instance, state.epochs[worker])]
      ensures handed == old(handed)[worker := (if worker in old(handed) then old(handed)[worker] else []) + [state.epochs[worker]]]
      ensures state.online == old(state.online)[worker := true] && state.closed == old(state.closed) - {connection}
      ensures transports == old(transports)[worker := connection]
      ensures state.Ledger() == O.Open(old(state.Ledger()), connection, worker)
    {
      hide O.Open;
      var epoch := OpenSession(worker, connection);
      KnownAfter(connections, old(state.connections), worker, S.Binding(worker, connection, instance, epoch));
      transports := transports[worker := connection];
      connections := connections[worker := S.Binding(worker, connection, instance, epoch)];
      bound := bound[connection := S.Binding(worker, connection, instance, epoch)];
      handed := handed[worker := (if worker in handed then handed[worker] else []) + [epoch]];
    }

    /** What the store records of an attachment. */
    method OpenSession(worker: Id, connection: Id) returns (epoch: int)
      modifies state`epochs, state`online, state`connections, state`closed
      ensures epoch == (if worker in old(state.epochs) then old(state.epochs)[worker] else 0) + 1
      ensures state.epochs == old(state.epochs)[worker := epoch]
      ensures state.online == old(state.online)[worker := true] && state.closed == old(state.closed) - {connection}
      ensures state.connections == old(state.connections)[connection := worker]
      ensures state.Ledger() == O.Open(old(state.Ledger()), connection, worker)
    {
      epoch := state.ActivateWorkerConnectionEpoch(worker);
      state.SetWorkerOnline(worker, true);
      state.OpenWorkerConnection(connection, worker);
    }

    static lemma KnownAfter(current: map<Id, S.Binding>, owners: map<Id, Id>, worker: Id, b: S.Binding)
      requires forall w | w in current :: current[w].connectionId in owners && owners[current[w].connectionId] == w
      requires b.connectionId in owners ==> owners[b.connectionId] == worker
      ensures var now, known := current[worker := b], owners[b.connectionId := worker];
              forall w | w in now :: now[w].connectionId in known && known[now[w].connectionId] == w
    {}

    /** The disconnect handler of a binding: only the current connection may take the worker down. */
    method OnDisconnect(b: S.Binding)
      requires Valid()
      modifies this`transports, state`online, state`closed, routes`routes
      ensures Valid()
      ensures Net() == S.Disconnect(old(Net()), b)
    {
      hide Known, LoomRouteRegistry.Valid;
      state.CloseWorkerConnection(b.connectionId);
      if b.workerId !in connections || connections[b.workerId].connectionId != b.connectionId { return; }
      state.SetWorkerOnline(b.workerId, false);
      transports := transports - {b.workerId};
      var _, _ := routes.InvalidateConnection(b.connectionId);
    }

    /** An inbound message: nothing happens unless it speaks for the current connection, in sequence. */
    method Receive(b: S.Binding, e: S.Envelope, p: Payload, now: int, later: int) returns (verdict: S.Verdict, done: bool)
      requires Known() && (e.heartbeat <==> p.Heartbeat?)
      modifies this`receiveSequences, state`online, state`messages, state`highest
      modifies state`assignments, state`leases, state`events, state`receipts, state`cursors, state`log
      ensures Known()
      ensures verdict == S.Judge(old(Net()), b, e)
      ensures Net() == S.Message(old(Net()), b, e)
      ensures state.Ledger() == if verdict == S.Admitted && p.Ack? then O.Acknowledge(old(state.Ledger()), b.workerId, p.sequence)
                                else old(state.Ledger())
      ensures state.Tables() == if verdict == S.Admitted && p.Execution?
                                then H.Handle(old(state.Tables()), H.Receive(p.kind, DeliveryOf(b, e, p), leaseMs, now, later))
                                else old(state.Tables())
      ensures if verdict == S.Admitted && p.Execution? && R.AcceptReply(old(state.Tables()), DeliveryOf(b, e, p), now).Taken?
              then Status.Acted(old(state.Tables()), state.Tables(), p.kind, DeliveryOf(b, e, p), leaseMs, later)
              else state.Tables() == old(state.Tables())
      ensures state.log == old(state.log)
              || (&& verdict == S.Admitted && p.Execution? && |state.log| == |old(state.log)| + 1
                  && state.log[..|old(state.log)|] == old(state.log)
                  && var entry := state.log[|old(state.log)|];
                     && entry.messageId == p.messageId && entry.payload == p.body && entry.fence == p.fence
                     && entry.sequence == e.sequence
                     && entry.key == R.CursorKey(p.assignmentId, p.leaseId, b.connectionId))
      ensures done <==> && verdict == S.Admitted
                        && (p.Execution? ==> R.AcceptReply(old(state.Tables()), DeliveryOf(b, e, p), now).Taken?)
                        && (p.Ack? ==> O.Acceptable(old(state.Ledger()), b.workerId, p.sequence))
    {
      hide Status.Acted, R.Accept, R.AcceptReply, R.Renew, R.Release, R.SetStatus, R.Acquire, R.Assign, R.Run, R.AcquireRefusal, R.Renewable, R.Releasable, R.MaxFence, O.Record, O.Issue, O.Next, O.Acknowledge, O.Acceptable, O.Open, O.Retire, O.Recordable, H.Handle, S.Judge, S.Message, Known;
      ghost var n := Net();
      verdict := Check(b, e);
      MessageIs(n, b, e);
      if verdict != S.Admitted { return verdict, false; }
      receiveSequences := receiveSequences[b.connectionId := e.sequence];
      done := TakePayload(b, e, p, now, later);
      if p.Execution? {
        Status.ReceiveActs(old(state.Tables()), p.kind, DeliveryOf(b, e, p), leaseMs, now, later);
        Status.ReceiveLogs(old(state.Tables()), p.kind, DeliveryOf(b, e, p), leaseMs, now, later);
      }
    }

    /** What an admitted envelope carries reaches the store. */
    method TakePayload(b: S.Binding, e: S.Envelope, p: Payload, now: int, later: int) returns (done: bool)
      modifies state`online, state`messages, state`highest
      modifies state`assignments, state`leases, state`events, state`receipts, state`cursors, state`log
      ensures state.online == if p.Heartbeat? then old(state.online)[b.workerId := true] else old(state.online)
      ensures state.Ledger() == if p.Ack? then O.Acknowledge(old(state.Ledger()), b.workerId, p.sequence) else old(state.Ledger())
      ensures state.Tables() == if p.Execution?
                                then H.Handle(old(state.Tables()), H.Receive(p.kind, DeliveryOf(b, e, p), leaseMs, now, later))
                                else old(state.Tables())
      ensures done <==> && (p.Execution? ==> R.AcceptReply(old(state.Tables()), DeliveryOf(b, e, p), now).Taken?)
                        && (p.Ack? ==> O.Acceptable(old(state.Ledger()), b.workerId, p.sequence))
    {
      hide R.Run, R.AcceptReply, O.Acknowledge, O.Acceptable, H.Handle;
      done := true;
      match p
      case Heartbeat => state.SetWorkerOnline(b.workerId, true);
      case Ack(sequence) => done := state.AcknowledgeUpTo(b.workerId, sequence);
      case Execution(kind, _, _, _, _, _) => done := TakeEvent(kind, DeliveryOf(b, e, p), now, later);
      case Nothing =>
    }

    static lemma MessageIs(n: S.Net, b: S.Binding, e: S.Envelope)
      ensures S.Message(n, b, e) == if S.Judge(n, b, e) != S.Admitted then n
                                    else n.(received := n.received[b.connectionId := e.sequence],
                                            online := if e.heartbeat then n.online[b.workerId := true] else n.online)
    {}

    method Check(b: S.Binding, e: S.Envelope) returns (verdict: S.Verdict)
      ensures verdict == S.Judge(Net(), b, e)
    {
      if e.sequence < 1 || e.sequence > MAX_SAFE_INTEGER { return S.Malformed; }
      if e.workerId != b.workerId || e.instanceId != b.instanceId || e.connection != Some(b.connectionId) || e.epoch != Some(b.epoch) {
        return S.Unauthorized;
      }
      if b.workerId !in connections { return S.StaleEpoch; }
      var connection := connections[b.workerId];
      if connection.connectionId != b.connectionId || connection.epoch != b.epoch { return S.StaleEpoch; }
      if b.connectionId in receiveSequences {
        var previous := receiveSequences[b.connectionId];
        if e.sequence <= previous { return S.Duplicate; }
        if e.sequence != previous + 1 { return S.SequenceGap; }
      }
      verdict := S.Admitted;
    }

    method TakeEvent(kind: H.Kind, d: R.Delivery, now: int, later: int) returns (accepted: bool)
      modifies state`assignments, state`leases, state`events, state`receipts, state`cursors, state`log
      ensures state.Tables() == H.Handle(old(state.Tables()), H.Receive(kind, d, leaseMs, now, later))
      ensures accepted <==> R.AcceptReply(old(state.Tables()), d, now).Taken?
    {
      hide R.Accept, R.AcceptReply, R.Run, H.AfterAccept;
      ghost var t := state.Tables();
      var reply := state.AcceptRemoteEvent(d, now);
      if reply.Refused? {
        RefusedChangesNothing(t, d, now);
        HandleNothing(t, H.Receive(kind, d, leaseMs, now, later));
        return false;
      }
      H.RunFirst(t, R.DoAccept(d, now), H.AfterAccept(kind, d, leaseMs, later));
      ActOnEvent(kind, d, later);
      accepted := true;
    }

    /** What an accepted message of each kind does to its assignment and lease. */
    method ActOnEvent(kind: H.Kind, d: R.Delivery, later: int)
      modifies state`assignments, state`leases
      ensures state.Tables() == R.Run(old(state.Tables()), H.AfterAccept(kind, d, leaseMs, later))
    {
      hide R.Renew, R.Release, R.SetStatus, R.Run, R.Renewable, R.Releasable;
      ghost var u, more := state.Tables(), H.AfterAccept(kind, d, leaseMs, later);
      match kind
      case SaysRenew =>
        H.RunOne(u, more[0]);
        var _ := state.RenewRemoteLease(d.leaseId, d.workerId, leaseMs, later);
      case SaysAccepted =>
        H.RunOne(u, more[0]);
        state.UpdateRemoteAssignmentStatus(d.assignmentId, R.Accepted);
      case SaysStarted =>
        H.RunOne(u, more[0]);
        state.UpdateRemoteAssignmentStatus(d.assignmentId, R.Running);
      case SaysResult(cancelled) =>
        H.RunTwo(u, more[0], more[1]);
        state.UpdateRemoteAssignmentStatus(d.assignmentId, if cancelled then R.Cancelled else R.Completed);
        var _ := state.ReleaseRemoteLease(d.leaseId, d.workerId, d.fence);
      case SaysError =>
        H.RunTwo(u, more[0], more[1]);
        state.UpdateRemoteAssignmentStatus(d.assignmentId, R.Failed);
        var _ := state.ReleaseRemoteLease(d.leaseId, d.workerId, d.fence);
      case SaysOther => H.RunNone(u);
    }

    static lemma CancellationIs(t: R.Tables, id: Id)
      requires H.Cancellable(t, id, true)
      ensures var a := t.assignments[id];
              H.Handle(t, H.CancelAssignment(id, true)) ==
              R.Release(R.SetStatus(t, id, R.Cancelled), a.leaseId.value, a.workerId, t.leases[a.leaseId.value].fence)
    {
      hide R.Release, R.SetStatus, R.Run;
      var a := t.assignments[id];
      H.RunTwo(t, R.DoSetStatus(id, R.Cancelled), R.DoRelease(a.leaseId.value, a.workerId, t.leases[a.leaseId.value].fence));
    }

    static lemma HandleNothing(t: R.Tables, h: H.Handler)
      requires H.Steps(t, h) == []
      ensures H.Handle(t, h) == t
    {}

    static lemma RefusedChangesNothing(t: R.Tables, d: R.Delivery, now: int)
      requires R.AcceptReply(t, d, now).Refused?
      ensures R.Accept(t, d, now) == t
    {}

    static lemma AssignedAlready(t: R.Tables, id: Id, worker: Id)
      requires id in t.assignments
      ensures R.Assign(t, id, worker) == t
    {}

    /** Issue the worker's next number and record the envelope before it is handed to the transport. */
    method Send(worker: Id, m: Id)
      requires Known() && worker in connections
      modifies state`sendSequences, state`issued, state`messages
      ensures Known()
      ensures state.Ledger() == O.Apply(old(state.Ledger()), O.DoSend(worker, connections[worker].connectionId, m))
    {
      var sequence := state.NextProtocolSequenceForWorker(worker);
      var _ := state.RecordProtocolMessage(m, connections[worker].connectionId, sequence);
    }

    /** The store grants a lease of the assignment to the worker. */
    ghost predicate Granted(t: R.Tables, assignmentId: Id, worker: Id, leaseId: Id) {
      R.AcquireRefusal(t, assignmentId, worker, leaseMs, leaseId).None?
    }

    /** Dispatch a job to the worker the router chose.  A job already under a live lease keeps it. */
    method Dispatch(jobId: Id, worker: Id, now: int, leaseId: Id, m: Id) returns (sent: bool)
      requires Known()
      modifies state`assignments, state`leases, state`sendSequences, state`issued, state`messages
      ensures Known()
      ensures sent <==> && worker in transports && worker in connections && jobId !in old(state.assignments)
                        && Granted(R.Assign(old(state.Tables()), jobId, worker), jobId, worker, leaseId)
      ensures state.Tables() == if worker in transports && worker in connections
                                then H.Handle(old(state.Tables()), H.Dispatch(jobId, worker, leaseMs, now, leaseId))
                                else old(state.Tables())
      ensures state.Ledger() == if sent then O.Apply(old(state.Ledger()), O.DoSend(worker, connections[worker].connectionId, m))
                                else old(state.Ledger())
    {
      hide R.Accept, R.AcceptReply, R.Renew, R.Release, R.SetStatus, R.Acquire, R.Assign, R.Run, R.AcquireRefusal, R.Renewable, R.Releasable, R.MaxFence, O.Record, O.Issue, O.Next, O.Acknowledge, O.Acceptable, O.Open, O.Retire, O.Recordable, Known;
      ghost var t := state.Tables();
      if worker !in transports || worker !in connections { return false; }
      var inserted := state.AssignRemote(jobId, worker);
      if !inserted {
        AssignedAlready(t, jobId, worker);
        HandleNothing(t, H.Dispatch(jobId, worker, leaseMs, now, leaseId));
        return false;
      }
      H.RunTwo(t, R.DoAssign(jobId, worker), R.DoAcquire(jobId, worker, leaseMs, now, leaseId));
      var grant := state.AcquireRemoteLease(jobId, worker, leaseMs, now, leaseId);
      if grant.Denied? { return false; }
      Send(worker, m);
      sent := true;
    }

    /** Settle the worker's open messages that carry an outdated dispatch. */
    method RetireStale(worker: Id, stale: Id -> bool) returns (ghost retired: seq<Id>)
      modifies state`messages, state`retired
      ensures state.Ledger() == RetireAll(old(state.Ledger()), retired)
      ensures forall x :: x in retired <==> stale(x) && O.Owns(old(state.Ledger()), worker, x) && !old(state.messages)[x].acked
    {
      hide O.Retire;
      retired := [];
      ghost var g := state.Ledger();
      var rows := state.ListUnackedProtocolMessagesForWorker(worker);
      for i := 0 to |rows|
        invariant state.Ledger() == RetireAll(g, retired)
        invariant forall x :: x in retired <==> stale(x) && x in rows[..i]
      {
        assert rows[..i + 1] == rows[..i] + [rows[i]];
        if stale(rows[i]) {
          assert (retired + [rows[i]])[..|retired|] == retired;
          retired := retired + [rows[i]];
          state.AckProtocolMessageById(rows[i]);
        }
      }
      assert rows[..|rows|] == rows;
    }

    /** One turn of recovery: retire the worker's old dispatches of the assignment, then lease it again. */
    method RecoverOne(assignmentId: Id, worker: Id, stale: Id -> bool, now: int, leaseId: Id, m: Id)
      returns (sent: bool, ghost retired: seq<Id>)
      requires Known()
      modifies state`assignments, state`leases, state`sendSequences, state`issued, state`messages, state`retired
      ensures Known()
      ensures state.Tables() == if worker in transports && worker in connections
                                then H.Handle(old(state.Tables()), H.RecoverOne(assignmentId, worker, leaseMs, now, leaseId))
                                else old(state.Tables())
      ensures forall x :: x in retired <==> && worker in transports && worker in connections
                                            && stale(x) && O.Owns(old(state.Ledger()), worker, x) && !old(state.messages)[x].acked
      ensures sent <==> && worker in transports && worker in connections
                        && Granted(old(state.Tables()), assignmentId, worker, leaseId)
      ensures state.Ledger() == if sent
                                then O.Apply(RetireAll(old(state.Ledger()), retired), O.DoSend(worker, connections[worker].connectionId, m))
                                else RetireAll(old(state.Ledger()), retired)
    {
      hide R.Accept, R.AcceptReply, R.Renew, R.Release, R.SetStatus, R.Acquire, R.Assign, R.Run, R.AcquireRefusal, R.Renewable, R.Releasable, R.MaxFence, O.Record, O.Issue, O.Next, O.Acknowledge, O.Acceptable, O.Open, O.Retire, O.Recordable, Known;
      retired := [];
      sent := false;
      if worker !in transports || worker !in connections { return; }
      retired := RetireStale(worker, stale);
      H.RunOne(state.Tables(), R.DoAcquire(assignmentId, worker, leaseMs, now, leaseId));
      var grant := state.AcquireRemoteLease(assignmentId, worker, leaseMs, now, leaseId);
      if grant.Denied? { return; }
      Send(worker, m);
      sent := true;
    }

    /** Cancel: store the status, end the lease, and queue the message even while the worker is away. */
    method Cancel(assignmentId: Id, m: Id) returns (cancelled: bool)
      requires Known()
      modifies state`assignments, state`leases, state`sendSequences, state`issued, state`messages
      ensures Known()
      ensures var t := old(state.Tables());
              var connected := assignmentId in t.assignments && t.assignments[assignmentId].workerId in connections;
              && state.Tables() == H.Handle(t, H.CancelAssignment(assignmentId, connected))
              && (cancelled <==> H.Cancellable(t, assignmentId, connected))
              && state.Ledger() == (if cancelled then
                                      var worker := t.assignments[assignmentId].workerId;
                                      O.Apply(old(state.Ledger()), O.DoSend(worker, connections[worker].connectionId, m))
                                    else old(state.Ledger()))
    {
      hide R.Accept, R.AcceptReply, R.Renew, R.Release, R.SetStatus, R.Acquire, R.Assign, R.Run, R.AcquireRefusal, R.Renewable, R.Releasable, R.MaxFence, O.Record, O.Issue, O.Next, O.Acknowledge, O.Acceptable, O.Open, O.Retire, O.Recordable, Known, H.Handle;
      ghost var t := state.Tables();
      if assignmentId !in state.assignments {
        HandleNothing(t, H.CancelAssignment(assignmentId, false));
        return false;
      }
      var a := state.assignments[assignmentId];
      if a.workerId !in connections || a.leaseId.None? || a.leaseId.value !in state.leases {
        HandleNothing(t, H.CancelAssignment(assignmentId, a.workerId in connections));
        return false;
      }
      var lease := state.leases[a.leaseId.value];
      CancellationIs(t, assignmentId);
      state.UpdateRemoteAssignmentStatus(assignmentId, R.Cancelled);
      var _ := state.ReleaseRemoteLease(a.leaseId.value, a.workerId, lease.fence);
      Send(a.workerId, m);
      cancelled := true;
    }
  }
}
