/**
 * What the deadline of a lease promises: when the holder's events are admitted, what every stored event had in front of it,
 * and which assignments can be leased again once a lease has lapsed (packages/state/src/index.ts).
 */
module RemoteDeadlines {
  import opened Numbers
  import opened Strings
  import opened RemoteStore
  import H = RemoteHandlers

  // ------------------------------------------------------------------ admission before the deadline

  /** The holder's next message under its lease: numbered rightly and never stored before. */
  ghost predicate IsNext(t: Tables, d: Delivery) {
    && d.leaseId in t.leases
    && t.leases[d.leaseId].assignmentId == d.assignmentId
    && t.leases[d.leaseId].workerId == d.workerId
    && t.leases[d.leaseId].fence == d.fence
    && 1 <= d.sequence <= MAX_SAFE_INTEGER
    && d.messageId !in t.events
    && (d.Key() in t.cursors ==> d.sequence == t.cursors[d.Key()] + 1)
  }

  lemma TakenBeforeDeadline(t: Tables, d: Delivery, now: int)
    requires AcceptReply(t, d, now).Taken?
    ensures d.leaseId in t.leases && t.leases[d.leaseId].status == Active && now < t.leases[d.leaseId].expiresAt
    ensures t.leases[d.leaseId].workerId == d.workerId && t.leases[d.leaseId].fence == d.fence && 1 <= d.sequence <= MAX_SAFE_INTEGER
  {}

  lemma NextIsTakenExactlyWhen(t: Tables, d: Delivery, at: int)
    requires ActiveIsNamed(t) && IsNext(t, d)
    ensures AcceptReply(t, d, at)
            == if t.leases[d.leaseId].status == Active && at < t.leases[d.leaseId].expiresAt then Taken(false, d.sequence)
               else Refused(StaleOrInvalidLease, None)
  {}

  ghost predicate NeverRenewed(steps: seq<Step>, l: Id) {
    forall i | 0 <= i < |steps| && steps[i].DoRenew? :: steps[i].leaseId != l
  }

  lemma StepKeepsDeadline(t: Tables, step: Step, l: Id)
    requires l in t.leases && (step.DoRenew? ==> step.leaseId != l)
    ensures l in Apply(t, step).leases && Apply(t, step).leases[l].expiresAt == t.leases[l].expiresAt
  {
    hide MaxFence, MaxOrdinal, AcceptReply;
  }

  /** Only a renewal of the lease itself moves its deadline. */
  lemma {:induction false} DeadlineStands(t: Tables, steps: seq<Step>, l: Id)
    requires l in t.leases && NeverRenewed(steps, l)
    ensures l in Run(t, steps).leases && Run(t, steps).leases[l].expiresAt == t.leases[l].expiresAt
    decreases |steps|
  {
    hide Apply;
    if steps != [] {
      StepKeepsDeadline(t, steps[0], l);
      DeadlineStands(Apply(t, steps[0]), steps[1..], l);
    }
  }

  /**
   * A lease granted at `now` for `ttl` admits its worker's next event exactly at the times before `now + ttl`, however the
   * tables have moved on meanwhile, as long as it is active and was not renewed.
   */
  lemma GrantLastsExactly(t: Tables, id: Id, worker: Id, ttl: int, now: int, l: Id, steps: seq<Step>, d: Delivery, at: int)
    requires Inv(t) && AcquireRefusal(t, id, worker, ttl, l).None? && NeverRenewed(steps, l)
    requires d.leaseId == l && IsNext(Run(Acquire(t, id, worker, ttl, now, l), steps), d)
    ensures var u := Run(Acquire(t, id, worker, ttl, now, l), steps);
            AcceptReply(u, d, at) == if u.leases[l].status == Active && at < now + ttl then Taken(false, d.sequence)
                                     else Refused(StaleOrInvalidLease, None)
  {
    hide AcquireRefusal, LeasesSound, LogFenced, LogStored, OrdinalsDense, CursorsTrack, IsNext, AcceptReply, Run, MaxFence;
    var v := Acquire(t, id, worker, ttl, now, l);
    assert v == Apply(t, DoAcquire(id, worker, ttl, now, l));
    LastsUntil(t, DoAcquire(id, worker, ttl, now, l), steps, d, at);
  }

  /** So does a lease renewed at `now` for `ttl`. */
  lemma RenewalLastsExactly(t: Tables, l: Id, worker: Id, ttl: int, now: int, steps: seq<Step>, d: Delivery, at: int)
    requires Inv(t) && Renewable(t, l, worker, ttl, now) && NeverRenewed(steps, l)
    requires d.leaseId == l && IsNext(Run(Renew(t, l, worker, ttl, now), steps), d)
    ensures var u := Run(Renew(t, l, worker, ttl, now), steps);
            AcceptReply(u, d, at) == if u.leases[l].status == Active && at < now + ttl then Taken(false, d.sequence)
                                     else Refused(StaleOrInvalidLease, None)
  {
    hide LeasesSound, LogFenced, LogStored, OrdinalsDense, CursorsTrack, IsNext, AcceptReply, Run;
    LastsUntil(t, DoRenew(l, worker, ttl, now), steps, d, at);
  }

  lemma LastsUntil(t: Tables, step: Step, steps: seq<Step>, d: Delivery, at: int)
    requires Inv(t) && d.leaseId in Apply(t, step).leases && NeverRenewed(steps, d.leaseId)
    requires IsNext(Run(Apply(t, step), steps), d)
    ensures var v := Apply(t, step);
            var u := Run(v, steps);
            && d.leaseId in u.leases
            && AcceptReply(u, d, at) == if u.leases[d.leaseId].status == Active && at < v.leases[d.leaseId].expiresAt
                                        then Taken(false, d.sequence) else Refused(StaleOrInvalidLease, None)
  {
    hide Apply, AcceptReply, Run, IsNext, ActiveIsNamed, TokensUnique, NamedIsNewest, LogFenced, LogStored, OrdinalsDense, CursorsTrack;
    StepKeepsInv(t, step);
    RunKeepsInv(Apply(t, step), steps);
    DeadlineStands(Apply(t, step), steps, d.leaseId);
    NextIsTakenExactlyWhen(Run(Apply(t, step), steps), d, at);
  }

  // ------------------------------------------------------------------ admission, told from the log

  /** The message `d` repeats the entry: same payload, and the same place on the same connection if that has a name. */
  predicate Repeats(d: Delivery, e: Entry) {
    d.messageId == e.messageId && d.payload == e.payload
    && (e.key.connectionId == "" || (e.key.connectionId == d.ConnectionId() && e.sequence == d.sequence))
  }

  /** The message is new, and the next one under its assignment, lease and connection. */
  ghost predicate Follows(d: Delivery, log: seq<Entry>) {
    && !Logged(log, d.messageId)
    && (LastSequence(log, d.Key()).Some? ==> d.sequence == LastSequence(log, d.Key()).value + 1)
  }

  lemma StoredOnce(t: Tables, i: nat)
    requires LogStored(t) && i < |t.log|
    ensures EntryStored(t, t.log[i])
  {}

  /**
   * A message under a live lease is taken exactly when the log says so: it repeats what is stored under its id, and is then
   * acknowledged by the stored number, or it is new and follows; each refusal has its own reason.
   */
  lemma TakenExactlyWhen(t: Tables, d: Delivery, now: int)
    requires Inv(t) && UnderLiveLease(t, d, now) && 1 <= d.sequence <= MAX_SAFE_INTEGER
    ensures forall ack :: AcceptReply(t, d, now) == Taken(true, ack)
                          <==> exists i :: 0 <= i < |t.log| && Repeats(d, t.log[i]) && t.log[i].sequence == ack
    ensures AcceptReply(t, d, now) == Taken(false, d.sequence) <==> Follows(d, t.log)
    ensures AcceptReply(t, d, now) == Refused(MessageIdConflict, None)
            <==> Logged(t.log, d.messageId) && forall i | 0 <= i < |t.log| :: !Repeats(d, t.log[i])
    ensures forall c :: AcceptReply(t, d, now) == Refused(StaleSequence, Some(c))
                        <==> !Logged(t.log, d.messageId) && LastSequence(t.log, d.Key()) == Some(c) && d.sequence <= c
    ensures forall c :: AcceptReply(t, d, now) == Refused(SequenceGap, Some(c))
                        <==> !Logged(t.log, d.messageId) && LastSequence(t.log, d.Key()) == Some(c) && d.sequence > c + 1
  {
    hide LeasesSound, LogFenced, LogStored, OrdinalsDense, CursorsTrack, UnderLiveLease, LastSequence, Logged;
    assert Logged(t.log, d.messageId) <==> d.messageId in t.events by { LoggedExactlyWhen(t, d.messageId); }
    if d.messageId in t.events {
      hide AcceptReply, Conflicts, EntryStored;
      StoredTakenExactlyWhen(t, d, now);
    } else {
      hide Repeats;
      NothingRepeats(t, d);
      assert LastSequence(t.log, d.Key()) == if d.Key() in t.cursors then Some(t.cursors[d.Key()]) else None by { CursorIsLast(t, d.Key()); }
    }
  }

  lemma LoggedExactlyWhen(t: Tables, m: Id)
    requires LogStored(t)
    ensures Logged(t.log, m) <==> m in t.events
  {
    StoredAll(t);
  }

  lemma NothingRepeats(t: Tables, d: Delivery)
    requires LogStored(t) && d.messageId !in t.events
    ensures forall i | 0 <= i < |t.log| :: !Repeats(d, t.log[i])
  {
    StoredAll(t);
  }

  lemma CursorIsLast(t: Tables, key: CursorKey)
    requires CursorsTrack(t)
    ensures LastSequence(t.log, key) == if key in t.cursors then Some(t.cursors[key]) else None
  {
    hide LastSequence;
  }

  lemma StoredTakenExactlyWhen(t: Tables, d: Delivery, now: int)
    requires LogStored(t) && UnderLiveLease(t, d, now) && 1 <= d.sequence <= MAX_SAFE_INTEGER && d.messageId in t.events
    ensures AcceptReply(t, d, now).Taken? ==> AcceptReply(t, d, now).duplicate
    ensures AcceptReply(t, d, now).Refused? ==> AcceptReply(t, d, now).reason == MessageIdConflict
    ensures forall ack :: AcceptReply(t, d, now) == Taken(true, ack)
                          <==> exists i :: 0 <= i < |t.log| && Repeats(d, t.log[i]) && t.log[i].sequence == ack
    ensures AcceptReply(t, d, now) == Refused(MessageIdConflict, None)
            <==> forall i | 0 <= i < |t.log| :: !Repeats(d, t.log[i])
  {
    hide UnderLiveLease;
    var k := PlaceOf(t, d.messageId);
    hide LogStored;
  }

  /** The one entry of a stored message. */
  lemma PlaceOf(t: Tables, m: Id) returns (k: nat)
    requires LogStored(t) && m in t.events
    ensures k < |t.log| && t.log[k].messageId == m && EntryStored(t, t.log[k])
    ensures forall i | 0 <= i < |t.log| && t.log[i].messageId == m :: i == k
  {
    k :| 0 <= k < |t.log| && t.log[k].messageId == m;
    StoredOnce(t, k);
    hide EntryStored;
  }

  lemma StoredAll(t: Tables)
    requires LogStored(t)
    ensures forall i | 0 <= i < |t.log| :: EntryStored(t, t.log[i])
  {}

  // ------------------------------------------------------------------ every stored event was in time

  /** Step `k` of the run took a message before the deadline its lease had just then, and that message is the i-th entry. */
  ghost predicate WrittenBy(t: Tables, steps: seq<Step>, k: nat, i: nat) {
    && k < |steps| && steps[k].DoAccept?
    && var d, before, log := steps[k].delivery, Run(t, steps[..k]), Run(t, steps).log;
       && |before.log| == i < |log|
       && log[i].messageId == d.messageId && log[i].key == d.Key() && log[i].fence == d.fence
       && log[i].sequence == d.sequence && log[i].payload == d.payload
       && d.leaseId in before.leases && before.leases[d.leaseId].status == Active
       && steps[k].now < before.leases[d.leaseId].expiresAt
  }

  lemma {:induction false} RunLast(t: Tables, steps: seq<Step>)
    requires steps != []
    ensures Run(t, steps) == Apply(Run(t, steps[..|steps| - 1]), steps[|steps| - 1])
    decreases |steps|
  {
    hide Apply;
    if |steps| == 1 {
      var none: seq<Step> := [];
      assert steps[1..] == none && steps[..0] == none;
    } else {
      assert steps[..|steps| - 1][1..] == steps[1..][..|steps| - 2];
      RunLast(Apply(t, steps[0]), steps[1..]);
    }
  }

  lemma WrittenStays(t: Tables, steps: seq<Step>, k: nat, i: nat)
    requires steps != [] && WrittenBy(t, steps[..|steps| - 1], k, i)
    requires Run(t, steps[..|steps| - 1]).log <= Run(t, steps).log
    ensures WrittenBy(t, steps, k, i)
  {
    hide Run;
    assert steps[..|steps| - 1][..k] == steps[..k];
  }

  /** Over every run, each stored event was taken strictly before the deadline that its lease had at that moment. */
  lemma {:induction false} WrittenInTime(t: Tables, steps: seq<Step>, i: nat) returns (k: nat)
    requires |t.log| <= i < |Run(t, steps).log|
    ensures WrittenBy(t, steps, k, i)
    decreases |steps|
  {
    hide Apply, AcceptReply, UnderLiveLease;
    assert steps != [];
    var n := |steps| - 1;
    var before, step := Run(t, steps[..n]), steps[n];
    RunLast(t, steps);
    StepAppends(before, step);
    if i < |before.log| {
      k := WrittenInTime(t, steps[..n], i);
      WrittenStays(t, steps, k, i);
    } else {
      k := n;
      TakenBeforeDeadline(before, step.delivery, step.now);
    }
  }

  // ------------------------------------------------------------------ the sweep

  /** A sweep leaves active exactly the leases that are not yet due, and expires exactly what waits on a lease it ended. */
  lemma SweepExactly(t: Tables, now: int)
    ensures var u := Expire(t, now);
            && u.leases.Keys == t.leases.Keys && u.assignments.Keys == t.assignments.Keys
            && (forall l | l in t.leases ::
                  && (u.leases[l].status == Active <==> t.leases[l].status == Active && now < t.leases[l].expiresAt)
                  && (t.leases[l].status != Active ==> u.leases[l] == t.leases[l])
                  && (u.leases[l] == t.leases[l] || u.leases[l] == t.leases[l].(status := Lapsed)))
            && (forall a | a in t.assignments ::
                  && u.assignments[a] == t.assignments[a].(status := u.assignments[a].status)
                  && (u.assignments[a].status != t.assignments[a].status <==>
                        && t.assignments[a].status in {Dispatched, Running}
                        && exists l :: l in t.leases && t.assignments[a].leaseId == Some(l)
                                       && u.leases[l].status != t.leases[l].status)
                  && (u.assignments[a].status != t.assignments[a].status ==> u.assignments[a].status == Expired))
  {}

  // ------------------------------------------------------------------ who is leased

  /** An assignment names another lease only by a grant to an assignment that nobody works on; only an expired one changes
      its worker. */
  lemma NamedAnewExactlyByGrants(t: Tables, step: Step, a: Id)
    requires a in t.assignments
    ensures a in Apply(t, step).assignments
    ensures var before, u := t.assignments[a], Apply(t, step);
            var after := u.assignments[a];
            after.workerId != before.workerId || after.leaseId != before.leaseId ==>
              && step.DoAcquire? && step.id == a && 0 < step.ttl <= MAX_SAFE_INTEGER
              && (before.status == Expired || (before.status == Assigned && after.workerId == before.workerId))
              && H.Unleased(t, a) && step.leaseId !in t.leases && step.leaseId in u.leases
              && after == Assignment(step.workerId, Dispatched, Some(step.leaseId))
              && u.leases[step.leaseId].workerId == step.workerId && u.leases[step.leaseId].assignmentId == a
              && u.leases[step.leaseId].status == Active && u.leases[step.leaseId].expiresAt == step.now + step.ttl
  {
    hide MaxFence, Accept, Expire, Renew, Release;
    if !step.DoAssign? && !step.DoAcquire? { OtherStepsOnlyStatuses(t, step); }
  }

  // ------------------------------------------------------------------ leased again

  /** Some active lease speaks for the assignment. */
  ghost predicate Leased(t: Tables, a: Id) {
    !H.Unleased(t, a)
  }

  /** No lease, and not in one of the two statuses from which leases are granted. */
  ghost predicate Stuck(t: Tables, a: Id) {
    a in t.assignments && H.Unleased(t, a) && t.assignments[a].status !in {Assigned, Expired}
  }

  /** The step does not set the status of `a`, except to cancel it. */
  ghost predicate LeavesStuck(step: Step, a: Id) {
    step.DoSetStatus? && step.id == a ==> step.status == Cancelled
  }

  lemma StepStaysStuck(t: Tables, step: Step, a: Id)
    requires LeasesSound(t) && Stuck(t, a) && LeavesStuck(step, a)
    ensures Stuck(Apply(t, step), a)
  {
    hide MaxFence, MaxOrdinal, AcceptReply, ActiveIsNamed, TokensUnique, Accept, Expire, Assign, Acquire, Renew, Release;
    match step
    case DoAssign(id, worker) => AssignLeavesStuck(t, id, worker, a);
    case DoAcquire(id, worker, ttl, now, l) =>
      GrantLeavesStuck(t, id, worker, ttl, now, l, a);
    case DoRenew(l, worker, ttl, now) => RenewOnlyStatuses(t, l, worker, ttl, now); RenewLeavesRows(t, l, worker, ttl, now);
    case DoRelease(l, worker, fence) => ReleaseOnlyStatuses(t, l, worker, fence); ReleaseLeavesRows(t, l, worker, fence);
    case DoSetStatus(_, _) =>
    case DoAccept(d, now) => AcceptOnlyStatuses(t, d, now);
    case DoExpire(now) => SweepLeavesStuck(t, now, a);
  }

  lemma AssignLeavesStuck(t: Tables, id: Id, worker: Id, a: Id)
    requires Stuck(t, a)
    ensures Stuck(Assign(t, id, worker), a)
  {}

  lemma RenewLeavesRows(t: Tables, l: Id, worker: Id, ttl: int, now: int)
    ensures Renew(t, l, worker, ttl, now).assignments == t.assignments
  {}

  lemma ReleaseLeavesRows(t: Tables, l: Id, worker: Id, fence: int)
    ensures Release(t, l, worker, fence).assignments == t.assignments
  {}

  lemma GrantLeavesStuck(t: Tables, id: Id, worker: Id, ttl: int, now: int, l: Id, a: Id)
    requires Stuck(t, a)
    ensures Stuck(Acquire(t, id, worker, ttl, now, l), a)
  {
    if AcquireRefusal(t, id, worker, ttl, l).None? {
      AcquireGrants(t, id, worker, ttl, now, l);
      hide Acquire, MaxFence;
    }
  }

  lemma SweepLeavesStuck(t: Tables, now: int, a: Id)
    requires NamedIsNewest(t) && Stuck(t, a)
    ensures Stuck(Expire(t, now), a)
  {}

  lemma {:induction false} RunStaysStuck(t: Tables, steps: seq<Step>, a: Id)
    requires Inv(t) && Stuck(t, a) && forall i | 0 <= i < |steps| :: LeavesStuck(steps[i], a)
    ensures Stuck(Run(t, steps), a)
    decreases |steps|
  {
    hide Apply, LeavesStuck, Stuck, LeasesSound, LogFenced, LogStored, OrdinalsDense, CursorsTrack;
    if steps != [] {
      StepStaysStuck(t, steps[0], a);
      StepKeepsInv(t, steps[0]);
      assert forall i | 0 <= i < |steps[1..]| :: steps[1..][i] == steps[i + 1];
      RunStaysStuck(Apply(t, steps[0]), steps[1..], a);
    }
  }

  lemma HandlerStaysStuck(t: Tables, h: H.Handler, a: Id)
    requires Inv(t) && Stuck(t, a)
    ensures Stuck(H.Handle(t, h), a)
  {
    hide LogFenced, LogStored, OrdinalsDense, CursorsTrack, LeasesSound, H.Unleased, Run, AcceptReply;
    if h.Receive? && h.delivery.assignmentId == a { H.UnleasedRefuses(t, h.delivery, h.now); }
    RunStaysStuck(t, H.Steps(t, h), a);
  }

  lemma {:induction false} StuckForGood(t: Tables, hs: seq<H.Handler>, a: Id)
    requires Inv(t) && Stuck(t, a)
    ensures Stuck(H.HandleAll(t, hs), a)
    decreases |hs|
  {
    hide Inv, Stuck, H.Handle;
    if hs != [] {
      HandlerStaysStuck(t, hs[0], a);
      H.HandleKeepsInv(t, hs[0]);
      StuckForGood(H.Handle(t, hs[0]), hs[1..], a);
    }
  }

  lemma RecoveryLeases(t: Tables, a: Id) returns (h: H.Handler)
    requires a in t.assignments && H.Unleased(t, a) && t.assignments[a].status in {Assigned, Expired}
    ensures Leased(H.Handle(t, h), a)
  {
    hide MaxFence;
    var worker := t.assignments[a].workerId;
    var l := H.FreshId(t.leases.Keys);
    h := H.RecoverOne(a, worker, 1, 0, l);
    assert AcquireRefusal(t, a, worker, 1, l).None?;
    H.RunOne(t, DoAcquire(a, worker, 1, 0, l));
    AcquireGrants(t, a, worker, 1, 0, l);
    hide Acquire;
    var u := Acquire(t, a, worker, 1, 0, l);
    assert u.leases[l].assignmentId == a && u.leases[l].status == Active;
  }

  /** An assignment without a lease can be leased again, by some run of whole handlers, exactly when it is assigned or expired. */
  lemma LeasedAgainExactlyWhen(t: Tables, a: Id)
    requires Inv(t) && a in t.assignments && H.Unleased(t, a)
    ensures (exists hs :: Leased(H.HandleAll(t, hs), a)) <==> t.assignments[a].status in {Assigned, Expired}
  {
    hide Inv, H.Handle, H.Unleased;
    if t.assignments[a].status in {Assigned, Expired} {
      var h := RecoveryLeases(t, a);
      OneHandler(t, h);
      assert Leased(H.HandleAll(t, [h]), a);
    } else {
      forall hs
        ensures !Leased(H.HandleAll(t, hs), a)
      {
        StuckForGood(t, hs, a);
      }
    }
  }

  lemma OneHandler(t: Tables, h: H.Handler)
    ensures H.HandleAll(t, [h]) == H.Handle(t, h)
  {
    var none: seq<H.Handler> := [h][1..];
    assert none == [] && H.HandleAll(H.Handle(t, h), none) == H.Handle(t, h);
  }

  /** An assignment with an active lease is neither assigned nor expired. */
  ghost predicate LeasedAreTaken(t: Tables) {
    forall l | l in t.leases && t.leases[l].status == Active && t.leases[l].assignmentId in t.assignments ::
      t.assignments[t.leases[l].assignmentId].status !in {Assigned, Expired}
  }

  lemma StepKeepsTaken(t: Tables, step: Step)
    requires LeasesSound(t) && LeasedAreTaken(t) && (step.DoSetStatus? ==> step.status !in {Assigned, Expired})
    ensures LeasedAreTaken(Apply(t, step))
  {
    hide MaxFence, MaxOrdinal, AcceptReply, TokensUnique;
    var u := Apply(t, step);
    if step.DoAcquire? && AcquireRefusal(t, step.id, step.workerId, step.ttl, step.leaseId).None? {
      AcquireGrants(t, step.id, step.workerId, step.ttl, step.now, step.leaseId);
    }
  }

  lemma {:induction false} RunKeepsTaken(t: Tables, steps: seq<Step>)
    requires Inv(t) && LeasedAreTaken(t)
    requires forall i | 0 <= i < |steps| && steps[i].DoSetStatus? :: steps[i].status !in {Assigned, Expired}
    ensures LeasedAreTaken(Run(t, steps))
    decreases |steps|
  {
    hide Apply, LeasedAreTaken, LeasesSound, LogFenced, LogStored, OrdinalsDense, CursorsTrack;
    if steps != [] {
      StepKeepsTaken(t, steps[0]);
      StepKeepsInv(t, steps[0]);
      RunKeepsTaken(Apply(t, steps[0]), steps[1..]);
    }
  }

  lemma {:induction false} HandlersKeepTaken(t: Tables, hs: seq<H.Handler>)
    requires Inv(t) && LeasedAreTaken(t)
    ensures LeasedAreTaken(H.HandleAll(t, hs)) && Inv(H.HandleAll(t, hs))
    decreases |hs|
  {
    hide Inv, Run, LeasedAreTaken, AcceptReply;
    if hs != [] {
      RunKeepsTaken(t, H.Steps(t, hs[0]));
      H.HandleKeepsInv(t, hs[0]);
      HandlersKeepTaken(H.Handle(t, hs[0]), hs[1..]);
    }
  }

  /**
   * Whatever handlers ran before, the sweep that ends the lease of an assignment lets some later run lease it again exactly
   * when it was dispatched or running: one that its worker had accepted but not started is lost for good.
   */
  lemma RecoverableExactlyWhen(hs: seq<H.Handler>, a: Id, l: Id, now: int)
    requires var t := H.HandleAll(EMPTY, hs);
             l in t.leases && t.leases[l].assignmentId == a && Overdue(t.leases[l], now) && a in t.assignments
    ensures var t := H.HandleAll(EMPTY, hs);
            (exists more :: Leased(H.HandleAll(Expire(t, now), more), a)) <==> t.assignments[a].status in {Dispatched, Running}
  {
    hide Inv, H.HandleAll, Leased;
    EmptyInv();
    HandlersKeepTaken(EMPTY, hs);
    SweptExactlyWhen(H.HandleAll(EMPTY, hs), a, l, now);
  }

  lemma SweptExactlyWhen(t: Tables, a: Id, l: Id, now: int)
    requires Inv(t) && LeasedAreTaken(t)
    requires l in t.leases && t.leases[l].assignmentId == a && Overdue(t.leases[l], now) && a in t.assignments
    ensures (exists more :: Leased(H.HandleAll(Expire(t, now), more), a)) <==> t.assignments[a].status in {Dispatched, Running}
  {
    hide LeasesSound, LogFenced, LogStored, OrdinalsDense, CursorsTrack, H.HandleAll, Leased, Expire, H.Unleased;
    assert Inv(Expire(t, now)) by { StepKeepsInv(t, DoExpire(now)); }
    SweepUnleases(t, a, l, now);
    LeasedAgainExactlyWhen(Expire(t, now), a);
  }

  lemma SweepUnleases(t: Tables, a: Id, l: Id, now: int)
    requires LeasesSound(t) && l in t.leases && t.leases[l].assignmentId == a && Overdue(t.leases[l], now)
    ensures a in Expire(t, now).assignments && H.Unleased(Expire(t, now), a)
    ensures Expire(t, now).assignments[a].status
            == if t.assignments[a].status in {Dispatched, Running} then Expired else t.assignments[a].status
  {
    assert t.assignments[a].leaseId == Some(l);
  }
}
