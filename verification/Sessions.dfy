/**
 * Worker sessions: attachments, their epochs, transports and routes, and which messages and disconnects
 * still count (packages/remote/src/index.ts, packages/state/src/index.ts).
 */
module Sessions {
  import opened Numbers
  import opened Strings
  import opened Topology

  type Id = Topology.Id

  /** What a transport is bound to when it attaches. */
  datatype Binding = Binding(workerId: Id, connectionId: Id, instanceId: Id, epoch: int)

  datatype Net = Net(
    epochs: map<Id, int>,         // worker_connection_epochs
    online: map<Id, bool>,        // workers.status
    closed: set<Id>,              // connections marked offline
    transports: map<Id, Id>,      // worker -> the connection whose transport serves it
    current: map<Id, Binding>,    // worker -> its latest binding
    routes: map<Id, Route>,
    nodes: set<Id>,
    nextRevision: nat,
    received: map<Id, int>,       // connection -> last admitted sequence
    bound: map<Id, Binding>,      // history: every binding ever made, by connection
    handed: map<Id, seq<int>>)    // history: the epochs handed out, per worker

  function Epoch(n: Net, worker: Id): int {
    if worker in n.epochs then n.epochs[worker] else 0
  }

  function Handed(n: Net, worker: Id): seq<int> {
    if worker in n.handed then n.handed[worker] else []
  }

  /** The registry takes a route for this worker over this connection. */
  predicate Routable(addressable: Id -> bool, worker: Id, connection: Id) {
    addressable(worker) && IsIdentifier(connection)
  }

  /**
   * Attach a transport.  The registry is asked only after transport and binding are stored, and may throw twice: at the
   * node, if the worker's id has no canonical address, and at the route, after its revision is counted, if it refuses
   * the connection id.  Then an older route of the worker stays, and no handlers are registered.
   */
  function Attach(n: Net, addressable: Id -> bool, worker: Id, connection: Id, instance: Id): Net {
    var epoch := Epoch(n, worker) + 1;
    var binding := Binding(worker, connection, instance, epoch);
    n.(epochs := n.epochs[worker := epoch],
       online := n.online[worker := true],
       closed := n.closed - {connection},
       transports := n.transports[worker := connection],
       current := n.current[worker := binding],
       bound := n.bound[connection := binding],
       handed := n.handed[worker := Handed(n, worker) + [epoch]],
       nodes := if addressable(worker) then n.nodes + {worker} else n.nodes,
       nextRevision := if addressable(worker) then n.nextRevision + 1 else n.nextRevision,
       routes := if Routable(addressable, worker, connection)
                 then n.routes[worker := Route(worker, Some(connection), true, n.nextRevision + 1)] else n.routes)
  }

  predicate IsCurrent(n: Net, b: Binding) {
    b.workerId in n.current && n.current[b.workerId].connectionId == b.connectionId
  }

  /** The disconnect handler registered with a binding; it may run late, and more than once. */
  function Disconnect(n: Net, b: Binding): Net {
    var m := n.(closed := n.closed + {b.connectionId});
    if !IsCurrent(n, b) then m
    else
      m.(online := n.online[b.workerId := false],
         transports := n.transports - {b.workerId},
         routes := Without(n.routes, b.connectionId))
  }

  /** The parts of an inbound envelope that decide whether it is admitted. */
  datatype Envelope = Envelope(workerId: Id, instanceId: Id, connection: Option<Id>, epoch: Option<int>, sequence: int, heartbeat: bool)

  datatype Verdict = Malformed | Unauthorized | StaleEpoch | Duplicate | SequenceGap | Admitted

  function Judge(n: Net, b: Binding, e: Envelope): Verdict {
    if e.sequence < 1 || e.sequence > MAX_SAFE_INTEGER then Malformed
    else if e.workerId != b.workerId || e.instanceId != b.instanceId || e.connection != Some(b.connectionId) || e.epoch != Some(b.epoch)
    then Unauthorized
    else if !IsCurrent(n, b) || n.current[b.workerId].epoch != b.epoch then StaleEpoch
    else if b.connectionId in n.received && e.sequence <= n.received[b.connectionId] then Duplicate
    else if b.connectionId in n.received && e.sequence != n.received[b.connectionId] + 1 then SequenceGap
    else Admitted
  }

  function Message(n: Net, b: Binding, e: Envelope): Net {
    if Judge(n, b, e) != Admitted then n
    else
      var m := n.(received := n.received[b.connectionId := e.sequence]);
      if e.heartbeat then m.(online := n.online[b.workerId := true]) else m
  }

  // ------------------------------------------------------------------ runs

  datatype Step =
    | DoAttach(worker: Id, connection: Id, instance: Id)
    | DoDisconnect(binding: Binding)
    | DoMessage(binding: Binding, envelope: Envelope)

  /** Connection ids are never reused, and handlers only exist for bindings that were completed. */
  predicate Enabled(n: Net, addressable: Id -> bool, step: Step) {
    match step
    case DoAttach(_, connection, _) => connection !in n.bound
    case DoDisconnect(b) => b.connectionId in n.bound && n.bound[b.connectionId] == b && Routable(addressable, b.workerId, b.connectionId)
    case DoMessage(b, _) => b.connectionId in n.bound && n.bound[b.connectionId] == b && Routable(addressable, b.workerId, b.connectionId)
  }

  function Apply(n: Net, addressable: Id -> bool, step: Step): Net {
    match step
    case DoAttach(worker, connection, instance) => Attach(n, addressable, worker, connection, instance)
    case DoDisconnect(b) => Disconnect(n, b)
    case DoMessage(b, e) => Message(n, b, e)
  }

  ghost predicate Reaches(n: Net, addressable: Id -> bool, steps: seq<Step>, m: Net)
    decreases |steps|
  {
    if steps == [] then n == m
    else Enabled(n, addressable, steps[0]) && Reaches(Apply(n, addressable, steps[0]), addressable, steps[1..], m)
  }

  // ------------------------------------------------------------------ what every step keeps

  /** The current binding of a worker is its latest, and was made. */
  ghost predicate CurrentIsBound(n: Net) {
    forall w | w in n.current ::
      && n.current[w].workerId == w
      && n.current[w].epoch == Epoch(n, w)
      && n.current[w].connectionId in n.bound
      && n.bound[n.current[w].connectionId] == n.current[w]
  }

  ghost predicate BoundIsKnown(n: Net) {
    forall c | c in n.bound ::
      && n.bound[c].connectionId == c
      && n.bound[c].workerId in n.current
      && n.bound[c].epoch <= Epoch(n, n.bound[c].workerId)
  }

  ghost predicate TransportsServe(n: Net) {
    forall w | w in n.transports :: w in n.current && n.transports[w] == n.current[w].connectionId
  }

  ghost predicate BindingsSound(n: Net) {
    CurrentIsBound(n) && BoundIsKnown(n) && TransportsServe(n)
  }

  /** A worker resolves to a route iff its transport is attached, and then the route names its current connection. */
  ghost predicate Agrees(n: Net, w: Id) {
    && (w in n.routes <==> w in n.transports)
    && (w in n.routes ==> w in n.current && n.routes[w].connectionId == Some(n.current[w].connectionId))
  }

  /** The worker's latest attachment got its route. */
  ghost predicate WasRouted(n: Net, addressable: Id -> bool, w: Id) {
    w in n.current && Routable(addressable, w, n.current[w].connectionId)
  }

  /** Routed workers agree; a worker whose attachment was refused keeps its transport, and at most an older route. */
  ghost predicate WorkersAgree(n: Net, addressable: Id -> bool) {
    && (forall w | WasRouted(n, addressable, w) :: Agrees(n, w))
    && (forall w | w in n.current && !WasRouted(n, addressable, w) ::
          && w in n.transports
          && (w in n.routes ==> n.routes[w].connectionId != Some(n.current[w].connectionId)))
  }

  /** Every route belongs to a node with an address, and names a connection that was bound to its worker. */
  ghost predicate RoutesKnown(n: Net, addressable: Id -> bool) {
    forall w | w in n.routes ::
      && addressable(w) && n.routes[w].target == w && w in n.nodes && w in n.current
      && n.routes[w].revision <= n.nextRevision
      && n.routes[w].connectionId.Some? && IsIdentifier(n.routes[w].connectionId.value)
      && n.routes[w].connectionId.value in n.bound
      && n.bound[n.routes[w].connectionId.value].workerId == w
  }

  ghost predicate RoutesAgree(n: Net, addressable: Id -> bool) {
    WorkersAgree(n, addressable) && RoutesKnown(n, addressable)
  }

  /** Each worker's epochs are handed out one after the other, from the one the store held at the start. */
  ghost predicate CountsOn(start: Net, n: Net) {
    forall w ::
      && Epoch(n, w) == Epoch(start, w) + |Handed(n, w)|
      && forall i | 0 <= i < |Handed(n, w)| :: Handed(n, w)[i] == Epoch(start, w) + 1 + i
  }

  ghost predicate Inv(n: Net, addressable: Id -> bool) {
    BindingsSound(n) && RoutesAgree(n, addressable)
  }

  /** `m` is `n` after a new binding for its worker. */
  ghost predicate Binds(n: Net, m: Net, b: Binding) {
    && b.connectionId !in n.bound
    && b.epoch == Epoch(n, b.workerId) + 1
    && m.epochs == n.epochs[b.workerId := b.epoch]
    && m.current == n.current[b.workerId := b]
    && m.bound == n.bound[b.connectionId := b]
    && m.transports == n.transports[b.workerId := b.connectionId]
  }

  lemma AttachBinds(n: Net, addressable: Id -> bool, worker: Id, connection: Id, instance: Id)
    requires connection !in n.bound
    ensures Binds(n, Attach(n, addressable, worker, connection, instance),
                  Binding(worker, connection, instance, Epoch(n, worker) + 1))
  {}

  lemma BindKeepsCurrent(n: Net, m: Net, b: Binding)
    requires CurrentIsBound(n) && Binds(n, m, b)
    ensures CurrentIsBound(m)
  {
    forall w | w in m.current
      ensures m.current[w].workerId == w && m.current[w].epoch == Epoch(m, w)
      ensures m.current[w].connectionId in m.bound && m.bound[m.current[w].connectionId] == m.current[w]
    {
      if w != b.workerId { assert w in n.current && m.current[w] == n.current[w]; }
    }
  }

  lemma BindKeepsBound(n: Net, m: Net, b: Binding)
    requires BoundIsKnown(n) && Binds(n, m, b)
    ensures BoundIsKnown(m)
  {
    forall c | c in m.bound
      ensures m.bound[c].connectionId == c && m.bound[c].workerId in m.current
      ensures m.bound[c].epoch <= Epoch(m, m.bound[c].workerId)
    {
      if c != b.connectionId { assert c in n.bound && m.bound[c] == n.bound[c]; }
    }
  }

  lemma AttachKeepsBindings(n: Net, addressable: Id -> bool, worker: Id, connection: Id, instance: Id)
    requires BindingsSound(n) && connection !in n.bound
    ensures BindingsSound(Attach(n, addressable, worker, connection, instance))
  {
    hide CurrentIsBound, BoundIsKnown;
    AttachBinds(n, addressable, worker, connection, instance);
    hide Attach;
    var b := Binding(worker, connection, instance, Epoch(n, worker) + 1);
    BindKeepsCurrent(n, Attach(n, addressable, worker, connection, instance), b);
    BindKeepsBound(n, Attach(n, addressable, worker, connection, instance), b);
  }

  lemma AttachKeepsRoutes(n: Net, addressable: Id -> bool, worker: Id, connection: Id, instance: Id)
    requires BindingsSound(n) && RoutesAgree(n, addressable) && connection !in n.bound
    ensures RoutesAgree(Attach(n, addressable, worker, connection, instance), addressable)
  {
    hide IsIdentifier, CurrentIsBound, BoundIsKnown;
    var m := Attach(n, addressable, worker, connection, instance);
    AttachShape(n, addressable, worker, connection, instance);
    hide Attach;
    AttachKeepsRoutesKnown(n, m, addressable, worker, connection);
    AttachKeepsWorkersAgree(n, m, addressable, worker, connection);
  }

  /** What an attachment does to bindings, transports and routes. */
  ghost predicate Attaches(n: Net, m: Net, addressable: Id -> bool, worker: Id, connection: Id) {
    && connection !in n.bound && connection in m.bound && m.bound[connection].workerId == worker
    && m.bound == n.bound[connection := m.bound[connection]]
    && m.transports == n.transports[worker := connection]
    && worker in m.current && m.current == n.current[worker := m.current[worker]] && m.current[worker].connectionId == connection
    && n.nodes <= m.nodes && n.nextRevision <= m.nextRevision
    && (if Routable(addressable, worker, connection) then
          && worker in m.nodes && m.routes == n.routes[worker := Route(worker, Some(connection), true, m.nextRevision)]
        else m.routes == n.routes)
  }

  lemma AttachShape(n: Net, addressable: Id -> bool, worker: Id, connection: Id, instance: Id)
    requires connection !in n.bound
    ensures Attaches(n, Attach(n, addressable, worker, connection, instance), addressable, worker, connection)
  {
    hide IsIdentifier;
  }

  lemma AttachKeepsRoutesKnown(n: Net, m: Net, addressable: Id -> bool, worker: Id, connection: Id)
    requires RoutesKnown(n, addressable) && Attaches(n, m, addressable, worker, connection)
    ensures RoutesKnown(m, addressable)
  {
    hide IsIdentifier;
  }

  lemma AttachKeepsWorkersAgree(n: Net, m: Net, addressable: Id -> bool, worker: Id, connection: Id)
    requires WorkersAgree(n, addressable) && RoutesKnown(n, addressable) && Attaches(n, m, addressable, worker, connection)
    ensures WorkersAgree(m, addressable)
  {
    hide IsIdentifier, Routable, RoutesKnown, Attaches;
    AttachTakesTheWorker(n, m, addressable, worker, connection);
    forall w | w in m.current && w != worker
      ensures WasRouted(m, addressable, w) ==> Agrees(m, w)
      ensures !WasRouted(m, addressable, w) ==>
                w in m.transports && (w in m.routes ==> m.routes[w].connectionId != Some(m.current[w].connectionId))
    {
      AttachSparesTheOthers(n, m, addressable, worker, connection, w);
    }
  }

  lemma AttachTakesTheWorker(n: Net, m: Net, addressable: Id -> bool, worker: Id, connection: Id)
    requires RoutesKnown(n, addressable) && Attaches(n, m, addressable, worker, connection)
    ensures WasRouted(m, addressable, worker) ==> Agrees(m, worker)
    ensures !WasRouted(m, addressable, worker) ==>
              && worker in m.current && worker in m.transports
              && (worker in m.routes ==> m.routes[worker].connectionId != Some(m.current[worker].connectionId))
  {
    hide IsIdentifier, Routable;
  }

  lemma AttachSparesTheOthers(n: Net, m: Net, addressable: Id -> bool, worker: Id, connection: Id, w: Id)
    requires Attaches(n, m, addressable, worker, connection) && w != worker
    ensures WasRouted(m, addressable, w) <==> WasRouted(n, addressable, w)
    ensures Agrees(m, w) <==> Agrees(n, w)
    ensures w in m.current <==> w in n.current
    ensures w in m.current ==> m.current[w] == n.current[w]
    ensures w in m.transports <==> w in n.transports
    ensures w in m.routes <==> w in n.routes
    ensures w in m.routes ==> m.routes[w] == n.routes[w]
  {
    hide IsIdentifier, Routable;
  }

  lemma DisconnectKeepsBindings(n: Net, b: Binding)
    requires BindingsSound(n)
    ensures BindingsSound(Disconnect(n, b))
  {
    hide BindingsSound;
    DisconnectShape(n, b);
    hide Disconnect;
    SameBindings(n, Disconnect(n, b));
  }

  lemma DisconnectShape(n: Net, b: Binding)
    ensures var m := Disconnect(n, b);
            && m.epochs == n.epochs && m.current == n.current && m.bound == n.bound && m.handed == n.handed
            && (m.transports == n.transports || m.transports == n.transports - {b.workerId})
  {
    hide Without, IsCurrent;
  }

  lemma SameBindings(n: Net, m: Net)
    requires BindingsSound(n)
    requires m.epochs == n.epochs && m.current == n.current && m.bound == n.bound
    requires forall w | w in m.transports :: w in n.transports && m.transports[w] == n.transports[w]
    ensures BindingsSound(m)
  {
    assert CurrentIsBound(m) by { hide BoundIsKnown, TransportsServe; }
    assert BoundIsKnown(m) by { hide CurrentIsBound, TransportsServe; }
    assert TransportsServe(m) by { hide CurrentIsBound, BoundIsKnown; }
  }

  lemma DisconnectKeepsRoutes(n: Net, addressable: Id -> bool, b: Binding)
    requires BindingsSound(n) && RoutesAgree(n, addressable) && b.connectionId in n.bound && n.bound[b.connectionId] == b
    requires Routable(addressable, b.workerId, b.connectionId)
    ensures RoutesAgree(Disconnect(n, b), addressable)
  {
    hide BindingsSound, Routable, IsIdentifier, RoutesAgree;
    var m := Disconnect(n, b);
    if IsCurrent(n, b) {
      CurrentIs(n, b);
      OnlyThisRoute(n, addressable, b);
      hide Without, Disconnect;
      WorkerGone(n, m, addressable, b.workerId);
    } else {
      SameRoutes(n, m, addressable);
    }
  }

  lemma CurrentIs(n: Net, b: Binding)
    requires IsCurrent(n, b)
    ensures b.workerId in n.current && n.current[b.workerId].connectionId == b.connectionId
  {}

  /** Removing the routes of a connection bound to a worker, and routed, removes that worker's route only. */
  lemma OnlyThisRoute(n: Net, addressable: Id -> bool, b: Binding)
    requires RoutesAgree(n, addressable) && b.connectionId in n.bound && n.bound[b.connectionId] == b
    requires IsCurrent(n, b) && Routable(addressable, b.workerId, b.connectionId)
    ensures Without(n.routes, b.connectionId) == n.routes - {b.workerId}
  {
    hide Routable, IsIdentifier;
    assert WasRouted(n, addressable, b.workerId) && Agrees(n, b.workerId);
  }

  lemma WorkerGone(n: Net, m: Net, addressable: Id -> bool, w: Id)
    requires RoutesAgree(n, addressable) && WasRouted(n, addressable, w)
    requires m.current == n.current && m.bound == n.bound && m.nodes == n.nodes && m.nextRevision == n.nextRevision
    requires m.transports == n.transports - {w} && m.routes == n.routes - {w}
    ensures RoutesAgree(m, addressable)
  {
    hide Routable, IsIdentifier;
    assert forall x :: WasRouted(m, addressable, x) <==> WasRouted(n, addressable, x);
    assert forall x :: Agrees(m, x) <==> x == w || Agrees(n, x);
  }

  lemma SameRoutes(n: Net, m: Net, addressable: Id -> bool)
    requires RoutesAgree(n, addressable)
    requires m.current == n.current && m.bound == n.bound && m.nodes == n.nodes && m.nextRevision == n.nextRevision
    requires m.transports == n.transports && m.routes == n.routes
    ensures RoutesAgree(m, addressable)
  {
    hide Routable, IsIdentifier;
    assert forall w :: WasRouted(m, addressable, w) <==> WasRouted(n, addressable, w);
    assert forall w :: Agrees(m, w) <==> Agrees(n, w);
  }

  lemma MessageKeeps(n: Net, addressable: Id -> bool, b: Binding, e: Envelope)
    requires BindingsSound(n) && RoutesAgree(n, addressable)
    ensures BindingsSound(Message(n, b, e)) && RoutesAgree(Message(n, b, e), addressable)
  {
    hide Judge, BindingsSound, RoutesAgree;
    SameBindings(n, Message(n, b, e));
    SameRoutes(n, Message(n, b, e), addressable);
  }

  lemma StepKeepsInv(n: Net, addressable: Id -> bool, step: Step)
    requires Inv(n, addressable) && Enabled(n, addressable, step)
    ensures Inv(Apply(n, addressable, step), addressable)
  {
    hide BindingsSound, RoutesAgree, Judge, Attach, Disconnect, Message;
    match step
    case DoAttach(worker, connection, instance) =>
      AttachKeepsBindings(n, addressable, worker, connection, instance);
      AttachKeepsRoutes(n, addressable, worker, connection, instance);
    case DoDisconnect(b) =>
      DisconnectKeepsBindings(n, b);
      DisconnectKeepsRoutes(n, addressable, b);
    case DoMessage(b, e) =>
      MessageKeeps(n, addressable, b, e);
  }

  lemma {:induction false} RunKeepsInv(n: Net, addressable: Id -> bool, steps: seq<Step>, m: Net)
    requires Inv(n, addressable) && Reaches(n, addressable, steps, m)
    ensures Inv(m, addressable)
    decreases |steps|
  {
    hide Inv, Apply;
    if steps != [] {
      StepKeepsInv(n, addressable, steps[0]);
      RunKeepsInv(Apply(n, addressable, steps[0]), addressable, steps[1..], m);
    }
  }

  lemma AttachCountsOn(start: Net, n: Net, addressable: Id -> bool, worker: Id, connection: Id, instance: Id)
    requires CountsOn(start, n)
    ensures CountsOn(start, Attach(n, addressable, worker, connection, instance))
  {
    hide CountsOn, Attach;
    AttachHandsOut(n, addressable, worker, connection, instance);
    HandingOutCountsOn(start, n, Attach(n, addressable, worker, connection, instance), worker);
  }

  lemma AttachHandsOut(n: Net, addressable: Id -> bool, worker: Id, connection: Id, instance: Id)
    ensures var m, epoch := Attach(n, addressable, worker, connection, instance), Epoch(n, worker) + 1;
            m.epochs == n.epochs[worker := epoch] && m.handed == n.handed[worker := Handed(n, worker) + [epoch]]
  {
    hide Routable;
  }

  lemma HandingOutCountsOn(start: Net, n: Net, m: Net, worker: Id)
    requires CountsOn(start, n)
    requires m.epochs == n.epochs[worker := Epoch(n, worker) + 1]
    requires m.handed == n.handed[worker := Handed(n, worker) + [Epoch(n, worker) + 1]]
    ensures CountsOn(start, m)
  {
    forall w
      ensures Epoch(m, w) == Epoch(start, w) + |Handed(m, w)|
      ensures forall i | 0 <= i < |Handed(m, w)| :: Handed(m, w)[i] == Epoch(start, w) + 1 + i
    {
      if w != worker { assert Handed(m, w) == Handed(n, w) && Epoch(m, w) == Epoch(n, w); }
    }
  }

  lemma SameEpochs(start: Net, n: Net, m: Net)
    requires CountsOn(start, n) && m.epochs == n.epochs && m.handed == n.handed
    ensures CountsOn(start, m)
  {
    assert forall w :: Epoch(m, w) == Epoch(n, w) && Handed(m, w) == Handed(n, w);
  }

  lemma StepCountsOn(start: Net, n: Net, addressable: Id -> bool, step: Step)
    requires CountsOn(start, n)
    ensures CountsOn(start, Apply(n, addressable, step))
  {
    hide CountsOn, Message, Attach, Disconnect;
    match step
    case DoAttach(worker, connection, instance) => AttachCountsOn(start, n, addressable, worker, connection, instance);
    case DoDisconnect(b) =>
      DisconnectShape(n, b);
      SameEpochs(start, n, Disconnect(n, b));
    case DoMessage(b, e) =>
      MessageKeepsBindings(n, b, e);
      SameEpochs(start, n, Message(n, b, e));
  }

  lemma {:induction false} RunCountsOn(start: Net, n: Net, addressable: Id -> bool, steps: seq<Step>, m: Net)
    requires CountsOn(start, n) && Reaches(n, addressable, steps, m)
    ensures CountsOn(start, m)
    decreases |steps|
  {
    hide CountsOn, Apply, Enabled;
    if steps != [] {
      StepCountsOn(start, n, addressable, steps[0]);
      RunCountsOn(start, Apply(n, addressable, steps[0]), addressable, steps[1..], m);
    }
  }

  /** A new controller: nothing is attached, and the store holds whatever epochs and statuses earlier controllers left. */
  ghost predicate IsStarted(n: Net, addressable: Id -> bool) {
    && n.transports == map[] && n.current == map[] && n.routes == map[] && n.received == map[]
    && n.bound == map[] && n.handed == map[]
    && forall w | w in n.nodes :: addressable(w)
  }

  /**
   * From a new controller on, after any interleaving of attachments, messages and early or late disconnects, a worker's
   * route and transport agree exactly when the registry took the connection its transport is attached over, or none is
   * attached; every route leads to a node with an address, and each worker's epochs count on from the persisted one.
   */
  lemma RoutesAndEpochsAgree(start: Net, addressable: Id -> bool, steps: seq<Step>, n: Net)
    requires IsStarted(start, addressable) && Reaches(start, addressable, steps, n)
    ensures forall w :: Agrees(n, w) <==> (w in n.transports ==> Routable(addressable, w, n.transports[w]))
    ensures forall w | w in n.routes :: addressable(w) && w in n.nodes
    ensures CountsOn(start, n)
    ensures forall w | w in n.current :: n.current[w].epoch == Epoch(n, w)
  {
    StartedIsSound(start, addressable);
    RunKeepsInv(start, addressable, steps, n);
    RunCountsOn(start, start, addressable, steps, n);
    hide IsIdentifier, CurrentIsBound, BoundIsKnown, Routable, CountsOn;
    forall w
      ensures Agrees(n, w) <==> (w in n.transports ==> Routable(addressable, w, n.transports[w]))
    {
      AgreesExactlyWhen(n, addressable, w);
    }
    EpochsFollow(n);
  }

  lemma StartedIsSound(n: Net, addressable: Id -> bool)
    requires IsStarted(n, addressable)
    ensures Inv(n, addressable) && CountsOn(n, n)
  {
    hide IsIdentifier;
    assert forall w :: Handed(n, w) == [];
  }

  lemma AgreesExactlyWhen(n: Net, addressable: Id -> bool, w: Id)
    requires TransportsServe(n) && RoutesAgree(n, addressable)
    ensures Agrees(n, w) <==> (w in n.transports ==> Routable(addressable, w, n.transports[w]))
  {
    hide Routable;
    assert w in n.transports ==> (WasRouted(n, addressable, w) <==> Routable(addressable, w, n.transports[w]));
  }

  lemma EpochsFollow(n: Net)
    requires CurrentIsBound(n)
    ensures forall w | w in n.current :: n.current[w].epoch == Epoch(n, w)
  {}

  /**
   * In every reachable state an attachment the registry refuses, at the worker's id or at the connection's, breaks the
   * agreement: the transport is attached, the routes are as before, and a refused connection has used up a revision.
   */
  lemma RefusedAttachmentsDisagree(start: Net, addressable: Id -> bool, steps: seq<Step>, n: Net, worker: Id,
                                   connection: Id, instance: Id)
    requires IsStarted(start, addressable) && Reaches(start, addressable, steps, n)
    requires connection !in n.bound && !Routable(addressable, worker, connection)
    ensures var m := Attach(n, addressable, worker, connection, instance);
            && Reaches(start, addressable, steps + [DoAttach(worker, connection, instance)], m)
            && !Agrees(m, worker) && m.routes == n.routes && worker in m.transports
            && m.nextRevision == n.nextRevision + if addressable(worker) then 1 else 0
  {
    hide IsIdentifier, Agrees, IsStarted, CountsOn, Reaches;
    var step := DoAttach(worker, connection, instance);
    var m := Attach(n, addressable, worker, connection, instance);
    ReachesOneMore(start, addressable, steps, n, step);
    RoutesAndEpochsAgree(start, addressable, steps + [step], m);
    assert m.transports[worker] == connection;
  }

  lemma {:induction false} ReachesOneMore(n: Net, addressable: Id -> bool, steps: seq<Step>, m: Net, step: Step)
    requires Reaches(n, addressable, steps, m) && Enabled(m, addressable, step)
    ensures Reaches(n, addressable, steps + [step], Apply(m, addressable, step))
    decreases |steps|
  {
    hide Enabled, Apply;
    var all := steps + [step];
    if steps == [] {
      var none := [step][1..];
      assert all == [step] && none == [];
      assert Reaches(Apply(n, addressable, step), addressable, none, Apply(n, addressable, step));
    } else {
      assert all[1..] == steps[1..] + [step];
      ReachesOneMore(Apply(n, addressable, steps[0]), addressable, steps[1..], m, step);
    }
  }

  /** The registry refuses the empty connection id, one blank, and one with a line feed, even for workers with an address. */
  lemma RefusedConnections(addressable: Id -> bool, worker: Id)
    ensures forall c | c in {"", " ", "conn\n1"} :: !Routable(addressable, worker, c)
  {
    var id := "conn\n1";
    assert IsControl(id[4]);
  }

  // ------------------------------------------------------------------ superseded connections

  /** A newer attachment of the same worker has taken over. */
  ghost predicate Superseded(n: Net, b: Binding) {
    b.connectionId in n.bound && n.bound[b.connectionId] == b && !IsCurrent(n, b)
  }

  lemma StepKeepsSuperseded(n: Net, addressable: Id -> bool, step: Step, b: Binding)
    requires Superseded(n, b) && Enabled(n, addressable, step)
    ensures Superseded(Apply(n, addressable, step), b)
  {
    hide Superseded, Attach, Disconnect, Message, Routable;
    match step
    case DoAttach(worker, connection, instance) =>
      var made := Binding(worker, connection, instance, Epoch(n, worker) + 1);
      AttachBinds(n, addressable, worker, connection, instance);
      BindKeepsSuperseded(n, Attach(n, addressable, worker, connection, instance), made, b);
    case DoDisconnect(c) =>
      DisconnectShape(n, c);
      SameBindingsKeepSuperseded(n, Disconnect(n, c), b);
    case DoMessage(c, e) =>
      MessageKeepsBindings(n, c, e);
      SameBindingsKeepSuperseded(n, Message(n, c, e), b);
  }

  lemma BindKeepsSuperseded(n: Net, m: Net, made: Binding, b: Binding)
    requires Superseded(n, b) && Binds(n, m, made)
    ensures Superseded(m, b)
  {}

  lemma MessageKeepsBindings(n: Net, b: Binding, e: Envelope)
    ensures Message(n, b, e).bound == n.bound && Message(n, b, e).current == n.current
    ensures Message(n, b, e).epochs == n.epochs && Message(n, b, e).handed == n.handed
  {
    hide Judge;
  }

  lemma SameBindingsKeepSuperseded(n: Net, m: Net, b: Binding)
    requires Superseded(n, b) && m.bound == n.bound && m.current == n.current
    ensures Superseded(m, b)
  {}

  lemma {:induction false} StaysSuperseded(n: Net, addressable: Id -> bool, steps: seq<Step>, m: Net, b: Binding)
    requires Superseded(n, b) && Reaches(n, addressable, steps, m)
    ensures Superseded(m, b)
    decreases |steps|
  {
    hide Apply, Superseded, Enabled;
    if steps != [] {
      StepKeepsSuperseded(n, addressable, steps[0], b);
      StaysSuperseded(Apply(n, addressable, steps[0]), addressable, steps[1..], m, b);
    }
  }

  /**
   * Once its worker is attached again, a connection has lost its authority for good: whatever happens afterwards, no
   * message of it is admitted or changes anything, and its disconnect only marks it closed.
   */
  lemma SupersededForGood(n: Net, addressable: Id -> bool, b: Binding, connection: Id, instance: Id, steps: seq<Step>, m: Net,
                          e: Envelope)
    requires b.connectionId in n.bound && n.bound[b.connectionId] == b && connection !in n.bound
    requires Reaches(Attach(n, addressable, b.workerId, connection, instance), addressable, steps, m)
    ensures Judge(m, b, e) != Admitted && Message(m, b, e) == m
    ensures Disconnect(m, b) == m.(closed := m.closed + {b.connectionId})
  {
    var after := Attach(n, addressable, b.workerId, connection, instance);
    AttachBinds(n, addressable, b.workerId, connection, instance);
    hide Attach, Reaches;
    assert Superseded(after, b);
    StaysSuperseded(after, addressable, steps, m, b);
  }
}
