/**
 * Leases, fencing tokens and the inbound event log of remote assignments (packages/state/src/index.ts).
 * Each transaction is one step on the tables; ids and the clock are parameters.
 */
module RemoteStore {
  import opened Numbers
  import opened Strings

  type Id = string

  datatype LeaseStatus = Active | Released | Lapsed

  datatype AssignmentStatus = Assigned | Dispatched | Accepted | Running | Expired | Completed | Failed | Cancelled

  datatype Lease = Lease(assignmentId: Id, workerId: Id, status: LeaseStatus, expiresAt: int, fence: int)

  datatype Assignment = Assignment(workerId: Id, status: AssignmentStatus, leaseId: Option<Id>)

  /** A row of execution_events, keyed by its message id. */
  datatype Event = Event(executionId: Id, ordinal: nat, payload: string)

  /** A row of remote_event_messages, keyed by its message id. */
  datatype Receipt = Receipt(connectionId: Id, sequence: int)

  datatype CursorKey = CursorKey(assignmentId: Id, leaseId: Id, connectionId: Id)

  /** History: one inserted event together with the lease that admitted it. */
  datatype Entry = Entry(messageId: Id, key: CursorKey, fence: int, ordinal: nat, sequence: int, payload: string)

  datatype Tables = Tables(
    assignments: map<Id, Assignment>,
    leases: map<Id, Lease>,
    events: map<Id, Event>,
    receipts: map<Id, Receipt>,
    cursors: map<CursorKey, int>,
    log: seq<Entry>)   // not a table: the insertions in order, for stating properties

  const EMPTY: Tables := Tables(map[], map[], map[], map[], map[], [])

  // ------------------------------------------------------------------ transactions

  /** COALESCE(MAX(fencing_token), 0) */
  ghost function MaxFence(leases: map<Id, Lease>): (r: int)
    ensures r >= 0 && forall l | l in leases :: leases[l].fence <= r
    ensures r == 0 || exists l :: l in leases && leases[l].fence == r
  {
    if leases == map[] then 0
    else
      var l :| l in leases;
      var rest := MaxFence(leases - {l});
      assert forall k | k in leases && k != l :: k in leases - {l};
      if leases[l].fence > rest then leases[l].fence else rest
  }

  /** COALESCE(MAX(sequence), 0) over the events of one assignment. */
  ghost function MaxOrdinal(events: map<Id, Event>, executionId: Id): (r: nat)
    ensures forall m | m in events && events[m].executionId == executionId :: events[m].ordinal <= r
    ensures r == 0 || exists m :: m in events && events[m].executionId == executionId && events[m].ordinal == r
  {
    if events == map[] then 0
    else
      var m :| m in events;
      var rest := MaxOrdinal(events - {m}, executionId);
      assert forall k | k in events && k != m :: k in events - {m};
      if events[m].executionId == executionId && events[m].ordinal > rest then events[m].ordinal else rest
  }

  function Assign(t: Tables, id: Id, workerId: Id): Tables {
    if id in t.assignments then t   // primary key violation
    else t.(assignments := t.assignments[id := Assignment(workerId, Assigned, None)])
  }

  datatype LeaseError = BadTtl | NotFound | NotAvailable | OwnerMismatch | AlreadyLeased | DuplicateLeaseId

  /** Why a lease is refused, in the order of the checks. */
  ghost function AcquireRefusal(t: Tables, assignmentId: Id, workerId: Id, ttl: int, leaseId: Id): Option<LeaseError> {
    if ttl <= 0 || ttl > MAX_SAFE_INTEGER then Some(BadTtl)
    else if assignmentId !in t.assignments then Some(NotFound)
    else
      var a := t.assignments[assignmentId];
      if a.status != Assigned && a.status != Expired then Some(NotAvailable)
      else if a.status == Assigned && a.workerId != workerId then Some(OwnerMismatch)
      else if exists l :: l in t.leases && t.leases[l].assignmentId == assignmentId && t.leases[l].status == Active then Some(AlreadyLeased)
      else if leaseId in t.leases then Some(DuplicateLeaseId)
      else None
  }

  ghost function Acquire(t: Tables, assignmentId: Id, workerId: Id, ttl: int, now: int, leaseId: Id): Tables {
    if AcquireRefusal(t, assignmentId, workerId, ttl, leaseId).Some? then t
    else
      t.(leases := t.leases[leaseId := Lease(assignmentId, workerId, Active, now + ttl, MaxFence(t.leases) + 1)],
         assignments := t.assignments[assignmentId := Assignment(workerId, Dispatched, Some(leaseId))])
  }

  predicate Renewable(t: Tables, leaseId: Id, workerId: Id, ttl: int, now: int) {
    && 0 < ttl <= MAX_SAFE_INTEGER
    && leaseId in t.leases
    && t.leases[leaseId].workerId == workerId
    && t.leases[leaseId].status == Active
    && t.leases[leaseId].expiresAt > now
  }

  function Renew(t: Tables, leaseId: Id, workerId: Id, ttl: int, now: int): Tables {
    if Renewable(t, leaseId, workerId, ttl, now)
    then t.(leases := t.leases[leaseId := t.leases[leaseId].(expiresAt := now + ttl)])
    else t
  }

  predicate Releasable(t: Tables, leaseId: Id, workerId: Id, fence: int) {
    && leaseId in t.leases
    && t.leases[leaseId].workerId == workerId
    && t.leases[leaseId].fence == fence
    && t.leases[leaseId].status == Active
  }

  function Release(t: Tables, leaseId: Id, workerId: Id, fence: int): Tables {
    if Releasable(t, leaseId, workerId, fence)
    then t.(leases := t.leases[leaseId := t.leases[leaseId].(status := Released)])
    else t
  }

  function SetStatus(t: Tables, id: Id, status: AssignmentStatus): Tables {
    if id in t.assignments then t.(assignments := t.assignments[id := t.assignments[id].(status := status)]) else t
  }

  predicate Overdue(l: Lease, now: int) {
    l.status == Active && l.expiresAt <= now
  }

  function Lapse(l: Lease, now: int): Lease {
    if Overdue(l, now) then l.(status := Lapsed) else l
  }

  /** An assignment expires with its lease, unless it has moved past dispatched and running. */
  function ExpireAssignment(a: Assignment, leases: map<Id, Lease>, now: int): Assignment {
    if a.status in {Dispatched, Running} && a.leaseId.Some? && a.leaseId.value in leases && Overdue(leases[a.leaseId.value], now)
    then a.(status := Expired) else a
  }

  function Expire(t: Tables, now: int): Tables {
    t.(leases := map l | l in t.leases :: Lapse(t.leases[l], now),
       assignments := map a | a in t.assignments :: ExpireAssignment(t.assignments[a], t.leases, now))
  }

  datatype Delivery = Delivery(
    assignmentId: Id, workerId: Id, leaseId: Id, fence: int,
    sequence: int, messageId: Id, payload: string, connection: Option<Id>)
  {
    function ConnectionId(): Id {
      if connection.Some? then connection.value else "legacy"
    }

    function Key(): CursorKey {
      CursorKey(assignmentId, leaseId, ConnectionId())
    }
  }

  datatype Reason = StaleOrInvalidLease | InvalidSequence | MessageIdConflict | StaleSequence | SequenceGap

  datatype Reply = Refused(reason: Reason, cursor: Option<int>) | Taken(duplicate: bool, ack: int)

  /** The delivery speaks for the lease that its assignment names, and that lease is in force. */
  predicate UnderLiveLease(t: Tables, d: Delivery, now: int) {
    && d.assignmentId in t.assignments
    && t.assignments[d.assignmentId].workerId == d.workerId
    && t.assignments[d.assignmentId].leaseId == Some(d.leaseId)
    && d.leaseId in t.leases
    && var lease := t.leases[d.leaseId];
       && lease.status == Active
       && lease.workerId == d.workerId
       && lease.fence == d.fence
       && lease.expiresAt > now
  }

  predicate Conflicts(t: Tables, d: Delivery)
    requires d.messageId in t.events
  {
    || t.events[d.messageId].payload != d.payload
    || (&& d.messageId in t.receipts
        && |t.receipts[d.messageId].connectionId| > 0
        && t.receipts[d.messageId] != Receipt(d.ConnectionId(), d.sequence))
  }

  function AcceptReply(t: Tables, d: Delivery, now: int): Reply {
    if !UnderLiveLease(t, d, now) then Refused(StaleOrInvalidLease, None)
    else if d.sequence < 1 || d.sequence > MAX_SAFE_INTEGER then Refused(InvalidSequence, None)
    else if d.messageId in t.events then
      if Conflicts(t, d) then Refused(MessageIdConflict, None)
      else Taken(true, if d.messageId in t.receipts then t.receipts[d.messageId].sequence else d.sequence)
    else if d.Key() in t.cursors && d.sequence != t.cursors[d.Key()] + 1 then
      Refused(if d.sequence <= t.cursors[d.Key()] then StaleSequence else SequenceGap, Some(t.cursors[d.Key()]))
    else Taken(false, d.sequence)
  }

  ghost function Accept(t: Tables, d: Delivery, now: int): Tables {
    if AcceptReply(t, d, now) != Taken(false, d.sequence) then t
    else
      var ordinal := MaxOrdinal(t.events, d.assignmentId) + 1;
      t.(events := t.events[d.messageId := Event(d.assignmentId, ordinal, d.payload)],
         receipts := t.receipts[d.messageId := Receipt(d.ConnectionId(), d.sequence)],
         cursors := t.cursors[d.Key() := d.sequence],
         log := t.log + [Entry(d.messageId, d.Key(), d.fence, ordinal, d.sequence, d.payload)])
  }

  // ------------------------------------------------------------------ runs

  datatype Step =
    | DoAssign(id: Id, workerId: Id)
    | DoAcquire(id: Id, workerId: Id, ttl: int, now: int, leaseId: Id)
    | DoRenew(leaseId: Id, workerId: Id, ttl: int, now: int)
    | DoRelease(leaseId: Id, workerId: Id, fence: int)
    | DoSetStatus(id: Id, status: AssignmentStatus)
    | DoExpire(now: int)
    | DoAccept(delivery: Delivery, now: int)

  ghost function Apply(t: Tables, step: Step): Tables {
    match step
    case DoAssign(id, workerId) => Assign(t, id, workerId)
    case DoAcquire(id, workerId, ttl, now, leaseId) => Acquire(t, id, workerId, ttl, now, leaseId)
    case DoRenew(leaseId, workerId, ttl, now) => Renew(t, leaseId, workerId, ttl, now)
    case DoRelease(leaseId, workerId, fence) => Release(t, leaseId, workerId, fence)
    case DoSetStatus(id, status) => SetStatus(t, id, status)
    case DoExpire(now) => Expire(t, now)
    case DoAccept(delivery, now) => Accept(t, delivery, now)
  }

  ghost function Run(t: Tables, steps: seq<Step>): Tables
    decreases |steps|
  {
    if steps == [] then t else Run(Apply(t, steps[0]), steps[1..])
  }

  // ------------------------------------------------------------------ what every step keeps

  /** An active lease is the one its assignment names, held by the assignment's worker. */
  ghost predicate ActiveIsNamed(t: Tables) {
    forall l | l in t.leases && t.leases[l].status == Active ::
      && t.leases[l].assignmentId in t.assignments
      && t.assignments[t.leases[l].assignmentId].leaseId == Some(l)
      && t.assignments[t.leases[l].assignmentId].workerId == t.leases[l].workerId
  }

  ghost predicate TokensUnique(t: Tables) {
    forall k, l | k in t.leases && l in t.leases && t.leases[k].fence == t.leases[l].fence :: k == l
  }

  /** Every lease belongs to an assignment, and the lease the assignment names carries its largest token. */
  ghost predicate NamedIsNewest(t: Tables) {
    && (forall l | l in t.leases ::
          && t.leases[l].assignmentId in t.assignments
          && t.assignments[t.leases[l].assignmentId].leaseId.Some?)
    && (forall a | a in t.assignments && t.assignments[a].leaseId.Some? ::
          t.assignments[a].leaseId.value in t.leases && t.leases[t.assignments[a].leaseId.value].assignmentId == a)
    && (forall k, l | k in t.leases && l in t.leases && t.leases[k].assignmentId == t.leases[l].assignmentId
                      && t.assignments[t.leases[k].assignmentId].leaseId == Some(k) ::
          t.leases[l].fence <= t.leases[k].fence)
  }

  ghost predicate LeasesSound(t: Tables) {
    ActiveIsNamed(t) && TokensUnique(t) && NamedIsNewest(t)
  }

  /** Along the log of one assignment the tokens never fall, and every entry was admitted by a lease of its own. */
  ghost predicate LogFenced(t: Tables) {
    && (forall i | 0 <= i < |t.log| ::
          && t.log[i].key.leaseId in t.leases
          && t.leases[t.log[i].key.leaseId].assignmentId == t.log[i].key.assignmentId
          && t.leases[t.log[i].key.leaseId].fence == t.log[i].fence)
    && (forall i, j | 0 <= i < j < |t.log| && t.log[i].key.assignmentId == t.log[j].key.assignmentId ::
          t.log[i].fence <= t.log[j].fence)
  }

  function Count(log: seq<Entry>, assignmentId: Id): nat {
    if log == [] then 0
    else Count(log[..|log| - 1], assignmentId) + if log[|log| - 1].key.assignmentId == assignmentId then 1 else 0
  }

  /** The transport sequence of the latest entry under `key`. */
  function LastSequence(log: seq<Entry>, key: CursorKey): Option<int> {
    if log == [] then None
    else if log[|log| - 1].key == key then Some(log[|log| - 1].sequence)
    else LastSequence(log[..|log| - 1], key)
  }

  ghost predicate EntryStored(t: Tables, e: Entry) {
    && e.messageId in t.events
    && t.events[e.messageId] == Event(e.key.assignmentId, e.ordinal, e.payload)
    && e.messageId in t.receipts
    && t.receipts[e.messageId] == Receipt(e.key.connectionId, e.sequence)
  }

  ghost predicate Logged(log: seq<Entry>, m: Id) {
    exists i :: 0 <= i < |log| && log[i].messageId == m
  }

  /** Events and receipts are exactly the log, each message once. */
  ghost predicate LogStored(t: Tables) {
    && (forall i | 0 <= i < |t.log| :: EntryStored(t, t.log[i]))
    && (forall i, j | 0 <= i < j < |t.log| :: t.log[i].messageId != t.log[j].messageId)
    && (forall m | m in t.events :: Logged(t.log, m))
    && t.receipts.Keys == t.events.Keys
  }

  /** The k-th event of an assignment has ordinal k. */
  ghost predicate OrdinalsDense(t: Tables) {
    forall i | 0 <= i < |t.log| :: t.log[i].ordinal == Count(t.log[..i], t.log[i].key.assignmentId) + 1
  }

  /** Under one assignment, lease and connection the accepted sequences are contiguous, and the cursor is the last. */
  ghost predicate CursorsTrack(t: Tables) {
    && (forall key :: key in t.cursors <==> LastSequence(t.log, key).Some?)
    && (forall key | key in t.cursors :: LastSequence(t.log, key) == Some(t.cursors[key]))
    && (forall i | 0 <= i < |t.log| ::
          var last := LastSequence(t.log[..i], t.log[i].key);
          last.Some? ==> t.log[i].sequence == last.value + 1)
  }

  ghost predicate Inv(t: Tables) {
    LeasesSound(t) && LogFenced(t) && LogStored(t) && OrdinalsDense(t) && CursorsTrack(t)
  }

  // ------------------------------------------------------------------ leases

  /** Leases are never deleted, and never change their assignment, worker or token. */
  ghost predicate LeasesPersist(t: Tables, u: Tables) {
    forall l | l in t.leases ::
      && l in u.leases
      && u.leases[l].assignmentId == t.leases[l].assignmentId
      && u.leases[l].workerId == t.leases[l].workerId
      && u.leases[l].fence == t.leases[l].fence
  }

  /** A lease that is no longer active never becomes active again. */
  ghost predicate NoRevival(t: Tables, u: Tables) {
    forall l | l in t.leases && l in u.leases && u.leases[l].status == Active :: t.leases[l].status == Active
  }

  /** What a granted lease changes. */
  ghost predicate Grants(t: Tables, u: Tables, id: Id, leaseId: Id) {
    && id in t.assignments && leaseId !in t.leases
    && (forall l | l in t.leases && t.leases[l].assignmentId == id :: t.leases[l].status != Active)
    && u.leases.Keys == t.leases.Keys + {leaseId}
    && (forall l | l in t.leases :: u.leases[l] == t.leases[l] && t.leases[l].fence < u.leases[leaseId].fence)
    && u.assignments == t.assignments[id := Assignment(u.leases[leaseId].workerId, Dispatched, Some(leaseId))]
    && u.leases[leaseId].assignmentId == id && u.leases[leaseId].status == Active
  }

  lemma AcquireGrants(t: Tables, id: Id, workerId: Id, ttl: int, now: int, leaseId: Id)
    requires AcquireRefusal(t, id, workerId, ttl, leaseId) == None
    ensures Grants(t, Acquire(t, id, workerId, ttl, now, leaseId), id, leaseId)
  {
    hide MaxFence;
  }

  lemma GrantKeepsActive(t: Tables, u: Tables, id: Id, leaseId: Id)
    requires Grants(t, u, id, leaseId) && ActiveIsNamed(t)
    ensures ActiveIsNamed(u)
  {
    forall l | l in u.leases && u.leases[l].status == Active
      ensures u.leases[l].assignmentId in u.assignments
      ensures u.assignments[u.leases[l].assignmentId].leaseId == Some(l)
      ensures u.assignments[u.leases[l].assignmentId].workerId == u.leases[l].workerId
    {
      if l != leaseId { assert l in t.leases && u.leases[l] == t.leases[l]; }
    }
  }

  lemma GrantKeepsTokens(t: Tables, u: Tables, id: Id, leaseId: Id)
    requires Grants(t, u, id, leaseId) && TokensUnique(t)
    ensures TokensUnique(u)
  {
    forall k, l | k in u.leases && l in u.leases && u.leases[k].fence == u.leases[l].fence
      ensures k == l
    {
      assert k != leaseId ==> k in t.leases;
      assert l != leaseId ==> l in t.leases;
    }
  }

  lemma GrantKeepsNewest(t: Tables, u: Tables, id: Id, leaseId: Id)
    requires Grants(t, u, id, leaseId) && NamedIsNewest(t)
    ensures NamedIsNewest(u)
  {
    forall l | l in u.leases
      ensures u.leases[l].assignmentId in u.assignments && u.assignments[u.leases[l].assignmentId].leaseId.Some?
    {
      if l != leaseId { assert l in t.leases; }
    }
    forall a | a in u.assignments && u.assignments[a].leaseId.Some?
      ensures u.assignments[a].leaseId.value in u.leases && u.leases[u.assignments[a].leaseId.value].assignmentId == a
    {
      if a != id { assert t.assignments[a] == u.assignments[a]; }
    }
    forall k, l | k in u.leases && l in u.leases && u.leases[k].assignmentId == u.leases[l].assignmentId
                  && u.assignments[u.leases[k].assignmentId].leaseId == Some(k)
      ensures u.leases[l].fence <= u.leases[k].fence
    {
      assert l != leaseId ==> l in t.leases;
      if k != leaseId {
        assert k in t.leases && t.leases[k] == u.leases[k] && u.leases[k].assignmentId != id;
      }
    }
  }

  lemma AcquireKeepsLeases(t: Tables, id: Id, workerId: Id, ttl: int, now: int, leaseId: Id)
    requires LeasesSound(t)
    ensures LeasesSound(Acquire(t, id, workerId, ttl, now, leaseId))
  {
    hide ActiveIsNamed, TokensUnique, NamedIsNewest, Grants;
    if AcquireRefusal(t, id, workerId, ttl, leaseId) == None {
      var u := Acquire(t, id, workerId, ttl, now, leaseId);
      AcquireGrants(t, id, workerId, ttl, now, leaseId);
      GrantKeepsActive(t, u, id, leaseId);
      GrantKeepsTokens(t, u, id, leaseId);
      GrantKeepsNewest(t, u, id, leaseId);
    }
  }

  /** Only statuses and deadlines change, and nothing becomes active. */
  ghost predicate OnlyStatuses(t: Tables, u: Tables) {
    && u.leases.Keys == t.leases.Keys
    && u.assignments.Keys == t.assignments.Keys
    && (forall l | l in t.leases ::
          && u.leases[l].assignmentId == t.leases[l].assignmentId
          && u.leases[l].workerId == t.leases[l].workerId
          && u.leases[l].fence == t.leases[l].fence
          && (u.leases[l].status == Active ==> t.leases[l].status == Active))
    && (forall a | a in t.assignments ::
          u.assignments[a].workerId == t.assignments[a].workerId && u.assignments[a].leaseId == t.assignments[a].leaseId)
  }

  lemma StatusesKeepLeases(t: Tables, u: Tables)
    requires LeasesSound(t) && OnlyStatuses(t, u)
    ensures LeasesSound(u)
  {
    assert ActiveIsNamed(u);
    assert TokensUnique(u);
    assert NamedIsNewest(u);
  }

  lemma AssignKeepsActive(t: Tables, id: Id, workerId: Id)
    requires ActiveIsNamed(t)
    ensures ActiveIsNamed(Assign(t, id, workerId))
  {}

  lemma AssignKeepsNewest(t: Tables, id: Id, workerId: Id)
    requires NamedIsNewest(t)
    ensures NamedIsNewest(Assign(t, id, workerId))
  {}

  lemma AssignKeepsLeases(t: Tables, id: Id, workerId: Id)
    requires LeasesSound(t)
    ensures LeasesSound(Assign(t, id, workerId))
  {
    AssignKeepsActive(t, id, workerId);
    AssignKeepsNewest(t, id, workerId);
    hide ActiveIsNamed, NamedIsNewest;
  }

  lemma StepKeepsLeases(t: Tables, step: Step)
    requires LeasesSound(t)
    ensures LeasesSound(Apply(t, step))
  {
    hide LeasesSound;
    match step
    case DoAssign(id, workerId) => AssignKeepsLeases(t, id, workerId);
    case DoAcquire(id, workerId, ttl, now, leaseId) => AcquireKeepsLeases(t, id, workerId, ttl, now, leaseId);
    case _ =>
      OtherStepsOnlyStatuses(t, step);
      StatusesKeepLeases(t, Apply(t, step));
  }

  lemma OtherStepsOnlyStatuses(t: Tables, step: Step)
    requires !step.DoAssign? && !step.DoAcquire?
    ensures OnlyStatuses(t, Apply(t, step))
  {
    match step
    case DoRenew(leaseId, workerId, ttl, now) => RenewOnlyStatuses(t, leaseId, workerId, ttl, now);
    case DoRelease(leaseId, workerId, fence) => ReleaseOnlyStatuses(t, leaseId, workerId, fence);
    case DoSetStatus(id, status) => SetStatusOnlyStatuses(t, id, status);
    case DoExpire(now) => ExpireOnlyStatuses(t, now);
    case DoAccept(d, now) => AcceptOnlyStatuses(t, d, now);
  }

  lemma RenewOnlyStatuses(t: Tables, leaseId: Id, workerId: Id, ttl: int, now: int)
    ensures OnlyStatuses(t, Renew(t, leaseId, workerId, ttl, now))
  {}

  lemma ReleaseOnlyStatuses(t: Tables, leaseId: Id, workerId: Id, fence: int)
    ensures OnlyStatuses(t, Release(t, leaseId, workerId, fence))
  {}

  lemma SetStatusOnlyStatuses(t: Tables, id: Id, status: AssignmentStatus)
    ensures OnlyStatuses(t, SetStatus(t, id, status))
  {
    var u := SetStatus(t, id, status);
    assert u.leases == t.leases;
    assert forall a | a in t.assignments && a != id :: u.assignments[a] == t.assignments[a];
  }

  lemma AcceptOnlyStatuses(t: Tables, d: Delivery, now: int)
    ensures OnlyStatuses(t, Accept(t, d, now))
    ensures Accept(t, d, now).leases == t.leases && Accept(t, d, now).assignments == t.assignments
  {
    hide AcceptReply, MaxOrdinal;
  }

  lemma ExpireOnlyStatuses(t: Tables, now: int)
    ensures OnlyStatuses(t, Expire(t, now))
  {}

  lemma StepPersistsLeases(t: Tables, step: Step)
    ensures LeasesPersist(t, Apply(t, step)) && NoRevival(t, Apply(t, step))
  {
    match step
    case DoAssign(_, _) =>
    case DoAcquire(id, workerId, ttl, now, leaseId) =>
      if AcquireRefusal(t, id, workerId, ttl, leaseId) == None { AcquireGrants(t, id, workerId, ttl, now, leaseId); }
    case _ => OtherStepsOnlyStatuses(t, step);
  }

  lemma StepAppends(t: Tables, step: Step)
    ensures !step.DoAccept? ==> && Apply(t, step).log == t.log && Apply(t, step).events == t.events
                                && Apply(t, step).receipts == t.receipts && Apply(t, step).cursors == t.cursors
    ensures step.DoAccept? ==>
              Apply(t, step).log == if AcceptReply(t, step.delivery, step.now) == Taken(false, step.delivery.sequence)
                                    then t.log + [EntryOf(t, step.delivery)] else t.log
  {
    hide MaxOrdinal, AcceptReply, MaxFence;
  }

  // ------------------------------------------------------------------ the log

  lemma {:induction false} CountGrows(log: seq<Entry>, assignmentId: Id, i: nat)
    requires i <= |log|
    ensures Count(log[..i], assignmentId) <= Count(log, assignmentId)
    ensures i < |log| && log[i].key.assignmentId == assignmentId ==>
              Count(log[..i], assignmentId) < Count(log, assignmentId)
    decreases |log|
  {
    if i == |log| {
      assert log[..i] == log;
    } else {
      var n := |log| - 1;
      assert log[..n][..i] == log[..i];
      CountGrows(log[..n], assignmentId, i);
    }
  }

  lemma {:induction false} LatestOrdinal(log: seq<Entry>, assignmentId: Id) returns (i: nat)
    requires Count(log, assignmentId) > 0
    ensures i < |log| && log[i].key.assignmentId == assignmentId
    ensures Count(log[..i], assignmentId) + 1 == Count(log, assignmentId)
    decreases |log|
  {
    var n := |log| - 1;
    if log[n].key.assignmentId == assignmentId {
      i := n;
    } else {
      i := LatestOrdinal(log[..n], assignmentId);
      assert log[..n][..i] == log[..i];
    }
  }

  lemma StoredOrdinalBelow(t: Tables, m: Id)
    requires LogStored(t) && OrdinalsDense(t) && m in t.events
    ensures t.events[m].ordinal <= Count(t.log, t.events[m].executionId)
  {
    hide Count;
    var i :| 0 <= i < |t.log| && t.log[i].messageId == m;
    CountGrows(t.log, t.log[i].key.assignmentId, i);
  }

  lemma LatestIsStored(t: Tables, assignmentId: Id)
    requires LogStored(t) && OrdinalsDense(t) && Count(t.log, assignmentId) > 0
    ensures exists m :: m in t.events && t.events[m].executionId == assignmentId
                        && t.events[m].ordinal == Count(t.log, assignmentId)
  {
    hide Count;
    var i := LatestOrdinal(t.log, assignmentId);
    assert t.log[i].messageId in t.events;
  }

  /** The next ordinal handed out is one more than the number of events stored for the assignment. */
  lemma NextOrdinal(t: Tables, assignmentId: Id)
    requires LogStored(t) && OrdinalsDense(t)
    ensures MaxOrdinal(t.events, assignmentId) == Count(t.log, assignmentId)
  {
    hide Count, MaxOrdinal, LogStored, OrdinalsDense;
    var r := MaxOrdinal(t.events, assignmentId);
    if r > 0 {
      var m :| m in t.events && t.events[m].executionId == assignmentId && t.events[m].ordinal == r;
      StoredOrdinalBelow(t, m);
    }
    if Count(t.log, assignmentId) > 0 { LatestIsStored(t, assignmentId); }
  }

  /** The tables after an insertion. */
  ghost predicate Inserts(t: Tables, u: Tables, e: Entry) {
    && e.messageId !in t.events
    && u.events == t.events[e.messageId := Event(e.key.assignmentId, e.ordinal, e.payload)]
    && u.receipts == t.receipts[e.messageId := Receipt(e.key.connectionId, e.sequence)]
    && u.cursors == t.cursors[e.key := e.sequence]
    && u.log == t.log + [e]
  }

  lemma InsertKeepsEntry(t: Tables, u: Tables, e: Entry, x: Entry)
    requires Inserts(t, u, e) && EntryStored(t, x)
    ensures EntryStored(u, x) && x.messageId != e.messageId
  {}

  lemma LoggedStill(log: seq<Entry>, e: Entry, m: Id)
    ensures Logged(log + [e], m) <==> Logged(log, m) || m == e.messageId
  {
    var longer := log + [e];
    assert longer[|log|] == e;
    forall i | 0 <= i < |log|
      ensures longer[i] == log[i]
    {}
  }

  lemma InsertKeepsStored(t: Tables, u: Tables, e: Entry)
    requires LogStored(t) && Inserts(t, u, e)
    ensures LogStored(u)
  {
    hide Logged, EntryStored;
    forall i | 0 <= i < |u.log|
      ensures EntryStored(u, u.log[i]) && (i < |t.log| ==> u.log[i].messageId != e.messageId)
    {
      if i < |t.log| {
        InsertKeepsEntry(t, u, e, t.log[i]);
      } else {
        NewEntryStored(t, u, e);
      }
    }
    forall m | m in u.events
      ensures Logged(u.log, m)
    {
      LoggedStill(t.log, e, m);
    }
  }

  lemma NewEntryStored(t: Tables, u: Tables, e: Entry)
    requires Inserts(t, u, e)
    ensures EntryStored(u, e)
  {}

  lemma InsertKeepsOrdinals(t: Tables, u: Tables, e: Entry)
    requires OrdinalsDense(t) && Inserts(t, u, e) && e.ordinal == Count(t.log, e.key.assignmentId) + 1
    ensures OrdinalsDense(u)
  {
    hide Count;
    forall i | 0 <= i < |u.log|
      ensures u.log[i].ordinal == Count(u.log[..i], u.log[i].key.assignmentId) + 1
    {
      if i < |t.log| {
        assert u.log[..i] == t.log[..i] && u.log[i] == t.log[i];
      } else {
        assert u.log[..i] == t.log;
      }
    }
  }

  lemma LastAfter(log: seq<Entry>, e: Entry, key: CursorKey)
    ensures LastSequence(log + [e], key) == if key == e.key then Some(e.sequence) else LastSequence(log, key)
  {
    assert (log + [e])[..|log|] == log;
  }

  lemma InsertKeepsCursors(t: Tables, u: Tables, e: Entry)
    requires CursorsTrack(t) && Inserts(t, u, e)
    requires e.key in t.cursors ==> e.sequence == t.cursors[e.key] + 1
    ensures CursorsTrack(u)
  {
    hide LastSequence;
    forall key
      ensures LastSequence(u.log, key) == if key == e.key then Some(e.sequence) else LastSequence(t.log, key)
    {
      LastAfter(t.log, e, key);
    }
    forall i | 0 <= i < |u.log|
      ensures var last := LastSequence(u.log[..i], u.log[i].key); last.Some? ==> u.log[i].sequence == last.value + 1
    {
      if i < |t.log| {
        assert u.log[..i] == t.log[..i] && u.log[i] == t.log[i];
      } else {
        assert u.log[..i] == t.log && u.log[i] == e;
      }
    }
  }

  /** The event that is inserted was admitted by the newest lease of its assignment. */
  lemma AcceptUnderNewestLease(t: Tables, d: Delivery, now: int)
    requires LeasesSound(t) && UnderLiveLease(t, d, now)
    ensures t.leases[d.leaseId].assignmentId == d.assignmentId
    ensures forall l | l in t.leases && t.leases[l].assignmentId == d.assignmentId :: t.leases[l].fence <= d.fence
  {}

  lemma InsertKeepsFencing(t: Tables, u: Tables, e: Entry)
    requires LogFenced(t) && Inserts(t, u, e) && u.leases == t.leases
    requires e.key.leaseId in t.leases && t.leases[e.key.leaseId].assignmentId == e.key.assignmentId
    requires t.leases[e.key.leaseId].fence == e.fence
    requires forall l | l in t.leases && t.leases[l].assignmentId == e.key.assignmentId :: t.leases[l].fence <= e.fence
    ensures LogFenced(u)
  {
    assert forall i | 0 <= i < |t.log| :: u.log[i] == t.log[i];
    assert u.log[|t.log|] == e;
  }

  lemma StepKeepsInv(t: Tables, step: Step)
    requires Inv(t)
    ensures Inv(Apply(t, step))
  {
    hide LeasesSound, LogStored, OrdinalsDense, CursorsTrack, Accept;
    StepKeepsLeases(t, step);
    StepPersistsLeases(t, step);
    StepAppends(t, step);
    if step.DoAccept? { AcceptEffect(t, step.delivery, step.now); } else { SameLog(t, Apply(t, step)); }
  }

  lemma SameLog(t: Tables, u: Tables)
    requires u.log == t.log && u.events == t.events && u.receipts == t.receipts && u.cursors == t.cursors
    requires LogFenced(t) && LogStored(t) && OrdinalsDense(t) && CursorsTrack(t) && LeasesPersist(t, u)
    ensures LogFenced(u) && LogStored(u) && OrdinalsDense(u) && CursorsTrack(u)
  {}

  /** The history entry a delivery leaves behind. */
  ghost function EntryOf(t: Tables, d: Delivery): Entry {
    Entry(d.messageId, d.Key(), d.fence, MaxOrdinal(t.events, d.assignmentId) + 1, d.sequence, d.payload)
  }

  lemma AcceptInserts(t: Tables, d: Delivery, now: int)
    requires AcceptReply(t, d, now) == Taken(false, d.sequence)
    ensures Inserts(t, Accept(t, d, now), EntryOf(t, d)) && UnderLiveLease(t, d, now)
    ensures d.Key() in t.cursors ==> d.sequence == t.cursors[d.Key()] + 1
  {
    hide MaxOrdinal, UnderLiveLease;
  }

  lemma AcceptEffect(t: Tables, d: Delivery, now: int)
    requires Inv(t)
    ensures var u := Accept(t, d, now); LogFenced(u) && LogStored(u) && OrdinalsDense(u) && CursorsTrack(u)
  {
    hide LogFenced, LogStored, OrdinalsDense, CursorsTrack, LeasesSound, Inserts, MaxOrdinal, Count;
    if AcceptReply(t, d, now) == Taken(false, d.sequence) {
      var u, e := Accept(t, d, now), EntryOf(t, d);
      AcceptInserts(t, d, now);
      NextOrdinal(t, d.assignmentId);
      AcceptUnderNewestLease(t, d, now);
      InsertKeepsStored(t, u, e);
      InsertKeepsOrdinals(t, u, e);
      InsertKeepsCursors(t, u, e);
      InsertKeepsFencing(t, u, e);
    }
  }

  lemma EmptyInv()
    ensures Inv(EMPTY)
  {}

  lemma {:induction false} RunKeepsInv(t: Tables, steps: seq<Step>)
    requires Inv(t)
    ensures Inv(Run(t, steps))
    decreases |steps|
  {
    hide Inv, Apply;
    if steps != [] {
      StepKeepsInv(t, steps[0]);
      RunKeepsInv(Apply(t, steps[0]), steps[1..]);
    }
  }

  // ------------------------------------------------------------------ fencing

  /** What fencing promises of one state. */
  ghost predicate Fenced(t: Tables) {
    && (forall k, l | k in t.leases && l in t.leases && t.leases[k].status == Active && t.leases[l].status == Active
                      && t.leases[k].assignmentId == t.leases[l].assignmentId :: k == l)
    && (forall l | l in t.leases && t.leases[l].status == Active ::
          t.leases[l].assignmentId in t.assignments && t.assignments[t.leases[l].assignmentId].leaseId == Some(l))
    && (forall k, l | k in t.leases && l in t.leases && t.leases[k].status == Active && k != l
                      && t.leases[k].assignmentId == t.leases[l].assignmentId :: t.leases[l].fence < t.leases[k].fence)
    && (forall i, j | 0 <= i < j < |t.log| && t.log[i].key.assignmentId == t.log[j].key.assignmentId ::
          t.log[i].fence <= t.log[j].fence)
  }

  lemma SoundIsFenced(t: Tables)
    requires LeasesSound(t) && LogFenced(t)
    ensures Fenced(t)
  {
    forall k, l | k in t.leases && l in t.leases && t.leases[k].status == Active && k != l
                  && t.leases[k].assignmentId == t.leases[l].assignmentId
      ensures t.leases[l].fence < t.leases[k].fence
    {
      assert t.assignments[t.leases[k].assignmentId].leaseId == Some(k);
    }
  }

  /** Over every run: one active lease per assignment, it is the named and newest one, tokens never fall. */
  lemma FencingOverRuns(steps: seq<Step>)
    ensures Fenced(Run(EMPTY, steps))
  {
    EmptyInv();
    RunKeepsInv(EMPTY, steps);
    SoundIsFenced(Run(EMPTY, steps));
  }

  /** A lease with a larger token exists for the same assignment. */
  ghost predicate Superseded(t: Tables, leaseId: Id, newer: Id) {
    && leaseId in t.leases && newer in t.leases
    && t.leases[newer].assignmentId == t.leases[leaseId].assignmentId
    && t.leases[newer].fence > t.leases[leaseId].fence
  }

  lemma SupersededStepWritesNothing(t: Tables, step: Step, leaseId: Id, newer: Id)
    requires Inv(t) && Superseded(t, leaseId, newer)
    ensures Superseded(Apply(t, step), leaseId, newer)
    ensures t.log <= Apply(t, step).log
    ensures forall i | |t.log| <= i < |Apply(t, step).log| :: Apply(t, step).log[i].key.leaseId != leaseId
  {
    hide LogStored, LogFenced, OrdinalsDense, CursorsTrack, MaxOrdinal, LeasesSound;
    StepPersistsLeases(t, step);
    StepAppends(t, step);
    if step.DoAccept? && AcceptReply(t, step.delivery, step.now) == Taken(false, step.delivery.sequence) {
      AcceptUnderNewestLease(t, step.delivery, step.now);
    }
  }

  /** Once a lease is superseded, no run whatever appends another event under it. */
  lemma {:induction false} SupersededNeverWrites(t: Tables, steps: seq<Step>, leaseId: Id, newer: Id)
    requires Inv(t) && Superseded(t, leaseId, newer)
    ensures t.log <= Run(t, steps).log
    ensures forall i | |t.log| <= i < |Run(t, steps).log| :: Run(t, steps).log[i].key.leaseId != leaseId
    decreases |steps|
  {
    hide Inv, Superseded, Apply;
    if steps != [] {
      var u := Apply(t, steps[0]);
      SupersededStepWritesNothing(t, steps[0], leaseId, newer);
      StepKeepsInv(t, steps[0]);
      SupersededNeverWrites(u, steps[1..], leaseId, newer);
    }
  }

  // ------------------------------------------------------------------ exactly-once intake

  /** Stored messages and receipts stay as they are, whatever happens later. */
  ghost predicate Keeps(t: Tables, u: Tables) {
    && (forall m | m in t.events :: m in u.events && u.events[m] == t.events[m])
    && (forall m | m in t.receipts :: m in u.receipts && u.receipts[m] == t.receipts[m])
  }

  lemma StepKeepsMessages(t: Tables, step: Step)
    requires LogStored(t)
    ensures Keeps(t, Apply(t, step))
  {
    hide LogStored, Inserts, UnderLiveLease, MaxOrdinal;
    StepAppends(t, step);
    if step.DoAccept? && AcceptReply(t, step.delivery, step.now) == Taken(false, step.delivery.sequence) {
      InsertKeepsMessages(t, step.delivery, step.now);
    }
  }

  lemma InsertKeepsMessages(t: Tables, d: Delivery, now: int)
    requires LogStored(t) && AcceptReply(t, d, now) == Taken(false, d.sequence)
    ensures Keeps(t, Accept(t, d, now))
  {
    AcceptInserts(t, d, now);
  }

  lemma {:induction false} RunKeepsMessages(t: Tables, steps: seq<Step>)
    requires Inv(t)
    ensures Keeps(t, Run(t, steps))
    decreases |steps|
  {
    hide Apply, LogStored, LeasesSound, LogFenced, OrdinalsDense, CursorsTrack;
    if steps != [] {
      StepKeepsInv(t, steps[0]);
      StepKeepsMessages(t, steps[0]);
      RunKeepsMessages(Apply(t, steps[0]), steps[1..]);
    }
  }

  /**
   * A message that was taken once may be delivered again at any later point of any run: while its lease
   * is in force the answer is the original acknowledgement, and nothing changes.
   */
  lemma RedeliveryChangesNothing(t: Tables, d: Delivery, now: int, steps: seq<Step>, later: int)
    requires Inv(t) && AcceptReply(t, d, now) == Taken(false, d.sequence)
    ensures var u := Run(Accept(t, d, now), steps);
            && Accept(u, d, later) == u
            && AcceptReply(u, d, later)
               == if UnderLiveLease(u, d, later) then Taken(true, d.sequence) else Refused(StaleOrInvalidLease, None)
  {
    hide LogStored, LeasesSound, LogFenced, OrdinalsDense, CursorsTrack, MaxOrdinal, UnderLiveLease, Run;
    var v := Accept(t, d, now);
    assert v == Apply(t, DoAccept(d, now));
    StepKeepsInv(t, DoAccept(d, now));
    RunKeepsMessages(v, steps);
  }

  lemma {:induction false} ContiguousBetween(log: seq<Entry>, i: nat, j: nat)
    requires i < j < |log| && log[i].key == log[j].key
    requires forall k | i < k < |log| :: var last := LastSequence(log[..k], log[k].key);
                                         last.Some? ==> log[k].sequence == last.value + 1
    ensures log[j].sequence > log[i].sequence
    ensures (forall k | i < k < j :: log[k].key != log[i].key) ==> log[j].sequence == log[i].sequence + 1
    decreases j
  {
    var k := LatestBefore(log, i, j);
    if k > i { ContiguousBetween(log, i, k); }
  }

  /** The entry that `LastSequence` finds for the prefix ending at `j`. */
  lemma {:induction false} LatestBefore(log: seq<Entry>, i: nat, j: nat) returns (k: nat)
    requires i < j < |log| && log[i].key == log[j].key
    ensures i <= k < j && log[k].key == log[j].key && forall m | k < m < j :: log[m].key != log[j].key
    ensures LastSequence(log[..j], log[j].key) == Some(log[k].sequence)
  {
    k := j - 1;
    assert log[..j][..k] == log[..k];
    while log[k].key != log[j].key
      invariant i <= k < j && forall m | k < m < j :: log[m].key != log[j].key
      invariant LastSequence(log[..j], log[j].key) == LastSequence(log[..k + 1], log[j].key)
      decreases k
    {
      assert log[..k + 1][..k] == log[..k];
      k := k - 1;
    }
    assert log[..k + 1][..k] == log[..k];
  }

  /**
   * Over every run: an assignment's events are numbered 1, 2, 3, … in order, every message is stored once,
   * and under one assignment, lease and connection consecutive events have consecutive sequences.
   */
  lemma IntakeIsExactlyOnce(steps: seq<Step>)
    ensures var t := Run(EMPTY, steps);
            && (forall i | 0 <= i < |t.log| :: t.log[i].ordinal == Count(t.log[..i], t.log[i].key.assignmentId) + 1)
            && (forall i, j | 0 <= i < j < |t.log| :: t.log[i].messageId != t.log[j].messageId)
            && (forall m | m in t.events :: Logged(t.log, m))
            && (forall i, j | 0 <= i < j < |t.log| && t.log[i].key == t.log[j].key
                              && (forall k | i < k < j :: t.log[k].key != t.log[i].key) ::
                  t.log[j].sequence == t.log[i].sequence + 1)
  {
    EmptyInv();
    RunKeepsInv(EMPTY, steps);
    var t := Run(EMPTY, steps);
    hide Run, LeasesSound, LogFenced, Count, Logged, EntryStored, LastSequence, CursorsTrack;
    Contiguous(t);
  }

  lemma Contiguous(t: Tables)
    requires CursorsTrack(t)
    ensures forall i, j | 0 <= i < j < |t.log| && t.log[i].key == t.log[j].key
                          && (forall k | i < k < j :: t.log[k].key != t.log[i].key) ::
              t.log[j].sequence == t.log[i].sequence + 1
  {
    hide LastSequence;
    forall i, j | 0 <= i < j < |t.log| && t.log[i].key == t.log[j].key && (forall k | i < k < j :: t.log[k].key != t.log[i].key)
      ensures t.log[j].sequence == t.log[i].sequence + 1
    {
      ContiguousBetween(t.log, i, j);
    }
  }
}
