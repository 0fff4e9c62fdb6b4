/**
 * The controller's handlers as compositions of store transactions, and what they promise about
 * finished assignments (packages/remote/src/index.ts).
 */
module RemoteHandlers {
  import opened Strings
  import opened RemoteStore

  /** The worker messages that carry an execution id. */
  datatype Kind = SaysAccepted | SaysStarted | SaysRenew | SaysResult(cancelled: bool) | SaysError | SaysOther

  /**
   * One run of a handler between two awaits.  The router's choice, fresh lease ids and every reading of
   * the clock are parameters; `connected` is whether the assignment's worker has ever attached.
   */
  datatype Handler =
    | Dispatch(jobId: Id, workerId: Id, leaseMs: int, now: int, leaseId: Id)
    | Receive(kind: Kind, delivery: Delivery, leaseMs: int, now: int, later: int)
    | ExpireLeases(now: int)
    | RecoverOne(assignmentId: Id, workerId: Id, leaseMs: int, now: int, leaseId: Id)
    | CancelAssignment(assignmentId: Id, connected: bool)

  predicate Cancellable(t: Tables, assignmentId: Id, connected: bool) {
    && connected
    && assignmentId in t.assignments
    && t.assignments[assignmentId].leaseId.Some?
    && t.assignments[assignmentId].leaseId.value in t.leases
  }

  /** What follows an accepted worker message. */
  function AfterAccept(kind: Kind, d: Delivery, leaseMs: int, later: int): seq<Step> {
    match kind
    case SaysRenew => [DoRenew(d.leaseId, d.workerId, leaseMs, later)]
    case SaysAccepted => [DoSetStatus(d.assignmentId, Accepted)]
    case SaysStarted => [DoSetStatus(d.assignmentId, Running)]
    case SaysResult(cancelled) =>
      [DoSetStatus(d.assignmentId, if cancelled then Cancelled else Completed), DoRelease(d.leaseId, d.workerId, d.fence)]
    case SaysError => [DoSetStatus(d.assignmentId, Failed), DoRelease(d.leaseId, d.workerId, d.fence)]
    case SaysOther => []
  }

  /** The transactions of a handler, in order; an exception ends the list early. */
  function Steps(t: Tables, h: Handler): seq<Step> {
    match h
    case Dispatch(jobId, workerId, leaseMs, now, leaseId) =>
      if jobId in t.assignments then []   // either the live lease is returned or the insertion fails
      else [DoAssign(jobId, workerId), DoAcquire(jobId, workerId, leaseMs, now, leaseId)]
    case Receive(kind, d, leaseMs, now, later) =>
      if AcceptReply(t, d, now).Refused? then [] else [DoAccept(d, now)] + AfterAccept(kind, d, leaseMs, later)
    case ExpireLeases(now) => [DoExpire(now)]
    case RecoverOne(id, workerId, leaseMs, now, leaseId) => [DoAcquire(id, workerId, leaseMs, now, leaseId)]
    case CancelAssignment(id, connected) =>
      if !Cancellable(t, id, connected) then []
      else
        var a := t.assignments[id];
        [DoSetStatus(id, Cancelled), DoRelease(a.leaseId.value, a.workerId, t.leases[a.leaseId.value].fence)]
  }

  ghost function Handle(t: Tables, h: Handler): Tables {
    Run(t, Steps(t, h))
  }

  ghost function HandleAll(t: Tables, hs: seq<Handler>): Tables
    decreases |hs|
  {
    if hs == [] then t else HandleAll(Handle(t, hs[0]), hs[1..])
  }

  lemma HandleKeepsInv(t: Tables, h: Handler)
    requires Inv(t)
    ensures Inv(Handle(t, h))
  {
    RunKeepsInv(t, Steps(t, h));
  }

  lemma {:induction false} HandleAllKeepsInv(t: Tables, hs: seq<Handler>)
    requires Inv(t)
    ensures Inv(HandleAll(t, hs))
    decreases |hs|
  {
    hide Inv, Handle;
    if hs != [] {
      HandleKeepsInv(t, hs[0]);
      HandleAllKeepsInv(Handle(t, hs[0]), hs[1..]);
    }
  }

  // ------------------------------------------------------------------ finality

  predicate Terminal(status: AssignmentStatus) {
    status in {Completed, Failed, Cancelled}
  }

  ghost predicate Unleased(t: Tables, a: Id) {
    forall l | l in t.leases && t.leases[l].assignmentId == a :: t.leases[l].status != Active
  }

  /** The assignment is finished and no active lease speaks for it. */
  ghost predicate Final(t: Tables, a: Id) {
    a in t.assignments && Terminal(t.assignments[a].status) && Unleased(t, a)
  }

  /** The assignment's part of the log, its leases and its status class are frozen between `t` and `u`. */
  ghost predicate Frozen(t: Tables, u: Tables, a: Id) {
    && Final(u, a)
    && LeasesPersist(t, u)
    && t.log <= u.log
    && (forall i | |t.log| <= i < |u.log| :: u.log[i].key.assignmentId != a)
    && (forall l | l in u.leases && u.leases[l].assignmentId == a :: l in t.leases)
  }

  /** Every step except a status change of the assignment itself freezes a final assignment. */
  lemma AssignFreezes(t: Tables, id: Id, workerId: Id, a: Id)
    requires Final(t, a) && LeasesPersist(t, Assign(t, id, workerId))
    ensures Frozen(t, Assign(t, id, workerId), a)
  {
    hide Terminal;
  }

  lemma AcquireFreezes(t: Tables, id: Id, workerId: Id, ttl: int, now: int, leaseId: Id, a: Id)
    requires LeasesSound(t) && Final(t, a) && LeasesPersist(t, Acquire(t, id, workerId, ttl, now, leaseId))
    ensures Frozen(t, Acquire(t, id, workerId, ttl, now, leaseId), a)
  {
    hide LeasesSound, MaxFence;
    if AcquireRefusal(t, id, workerId, ttl, leaseId) == None {
      AcquireGrants(t, id, workerId, ttl, now, leaseId);
      hide Acquire;
    }
  }

  lemma AcceptFreezes(t: Tables, d: Delivery, now: int, a: Id)
    requires LeasesSound(t) && Final(t, a) && LeasesPersist(t, Accept(t, d, now))
    ensures Frozen(t, Accept(t, d, now), a)
  {
    hide LeasesSound, MaxOrdinal;
    AcceptOnlyStatuses(t, d, now);
    StepAppends(t, DoAccept(d, now));
    if UnderLiveLease(t, d, now) { AcceptUnderNewestLease(t, d, now); }
  }

  lemma ExpireFreezes(t: Tables, now: int, a: Id)
    requires Final(t, a) && LeasesPersist(t, Expire(t, now))
    ensures Frozen(t, Expire(t, now), a)
  {}

  lemma StepFreezes(t: Tables, step: Step, a: Id)
    requires LeasesSound(t) && Final(t, a)
    requires step.DoSetStatus? && step.id == a ==> Terminal(step.status)
    ensures Frozen(t, Apply(t, step), a)
  {
    hide LeasesSound, MaxOrdinal, MaxFence, Expire, Assign, Acquire, Accept, AcceptReply, Terminal;
    StepPersistsLeases(t, step);
    match step
    case DoAssign(id, workerId) => AssignFreezes(t, id, workerId, a);
    case DoAcquire(id, workerId, ttl, now, leaseId) => AcquireFreezes(t, id, workerId, ttl, now, leaseId, a);
    case DoAccept(d, now) => AcceptFreezes(t, d, now, a);
    case DoExpire(now) => ExpireFreezes(t, now, a);
    case _ => OtherStepsOnlyStatuses(t, step);
  }

  ghost predicate KeepsTerminal(steps: seq<Step>, a: Id) {
    forall i | 0 <= i < |steps| && steps[i].DoSetStatus? && steps[i].id == a :: Terminal(steps[i].status)
  }

  lemma FrozenOnwards(t: Tables, u: Tables, v: Tables, a: Id)
    requires Frozen(t, u, a) && Frozen(u, v, a)
    ensures Frozen(t, v, a)
  {
    assert forall i | 0 <= i < |u.log| :: v.log[i] == u.log[i];
  }

  lemma {:induction false} RunFreezes(t: Tables, steps: seq<Step>, a: Id)
    requires Inv(t) && Final(t, a) && KeepsTerminal(steps, a)
    ensures Frozen(t, Run(t, steps), a)
    decreases |steps|
  {
    hide LeasesSound, LogFenced, LogStored, OrdinalsDense, CursorsTrack, Apply, Unleased, Frozen;
    if steps == [] {
      FrozenAtOnce(t, a);
    } else {
      var u := Apply(t, steps[0]);
      StepFreezes(t, steps[0], a);
      StepKeepsInv(t, steps[0]);
      FrozenIsFinal(t, u, a);
      RunFreezes(u, steps[1..], a);
      FrozenOnwards(t, u, Run(u, steps[1..]), a);
    }
  }

  lemma FrozenAtOnce(t: Tables, a: Id)
    requires Final(t, a)
    ensures Frozen(t, t, a)
  {}

  lemma FrozenIsFinal(t: Tables, u: Tables, a: Id)
    requires Frozen(t, u, a)
    ensures Final(u, a)
  {}

  /** A message for an assignment without an active lease is refused. */
  lemma UnleasedRefuses(t: Tables, d: Delivery, now: int)
    requires LeasesSound(t) && Unleased(t, d.assignmentId)
    ensures AcceptReply(t, d, now) == Refused(StaleOrInvalidLease, None)
  {
    if UnderLiveLease(t, d, now) { AcceptUnderNewestLease(t, d, now); }
  }

  lemma HandlerFreezes(t: Tables, h: Handler, a: Id)
    requires Inv(t) && Final(t, a)
    ensures Frozen(t, Handle(t, h), a)
  {
    hide LogFenced, LogStored, OrdinalsDense, CursorsTrack, LeasesSound, Unleased, Run, AcceptReply;
    if h.Receive? && h.delivery.assignmentId == a { UnleasedRefuses(t, h.delivery, h.now); }
    RunFreezes(t, Steps(t, h), a);
  }

  /**
   * Finality: once an assignment is completed, failed or cancelled and its lease is over, every later
   * handler keeps it in those statuses, appends no event of its, and never grants it another lease.
   */
  lemma {:induction false} FinalStaysFinal(t: Tables, hs: seq<Handler>, a: Id)
    requires Inv(t) && Final(t, a)
    ensures Frozen(t, HandleAll(t, hs), a)
    decreases |hs|
  {
    hide Inv, Handle, Frozen, Final;
    if hs == [] {
      FrozenAtOnce(t, a);
    } else {
      HandlerFreezes(t, hs[0], a);
      HandleKeepsInv(t, hs[0]);
      FrozenIsFinal(t, Handle(t, hs[0]), a);
      FinalStaysFinal(Handle(t, hs[0]), hs[1..], a);
      FrozenOnwards(t, Handle(t, hs[0]), HandleAll(Handle(t, hs[0]), hs[1..]), a);
    }
  }

  // ------------------------------------------------------------------ finished assignments are final

  /** Whole handlers leave no finished assignment with an active lease. */
  ghost predicate Settled(t: Tables) {
    forall a | a in t.assignments && Terminal(t.assignments[a].status) :: Unleased(t, a)
  }

  ghost predicate Open(t: Tables, a: Id) {
    a in t.assignments ==> !Terminal(t.assignments[a].status)
  }

  ghost predicate NeverFinishes(steps: seq<Step>, a: Id) {
    forall i | 0 <= i < |steps| && steps[i].DoSetStatus? && steps[i].id == a :: !Terminal(steps[i].status)
  }

  lemma StepStaysOpen(t: Tables, step: Step, a: Id)
    requires Open(t, a) && (step.DoSetStatus? && step.id == a ==> !Terminal(step.status))
    ensures Open(Apply(t, step), a)
  {
    hide MaxOrdinal, MaxFence, AcceptReply, AcquireRefusal;
  }

  lemma {:induction false} RunStaysOpen(t: Tables, steps: seq<Step>, a: Id)
    requires Open(t, a) && NeverFinishes(steps, a)
    ensures Open(Run(t, steps), a)
    decreases |steps|
  {
    hide Apply, Open;
    if steps != [] {
      StepStaysOpen(t, steps[0], a);
      RunStaysOpen(Apply(t, steps[0]), steps[1..], a);
    }
  }

  lemma RunNone(t: Tables)
    ensures Run(t, []) == t
  {}

  lemma RunOne(t: Tables, step: Step)
    ensures Run(t, [step]) == Apply(t, step)
  {
    var none: seq<Step> := [step][1..];
    assert none == [] && Run(Apply(t, step), none) == Apply(t, step);
  }

  lemma RunFirst(t: Tables, step: Step, more: seq<Step>)
    ensures Run(t, [step] + more) == Run(Apply(t, step), more)
  {
    assert ([step] + more)[1..] == more;
  }

  lemma RunTwo(t: Tables, a: Step, b: Step)
    ensures Run(t, [a, b]) == Apply(Apply(t, a), b)
  {
    assert [a, b][1..] == [b];
    var none: seq<Step> := [b][1..];
    assert none == [];
    assert Run(Apply(t, a), [b]) == Run(Apply(Apply(t, a), b), none);
  }

  lemma RunThree(t: Tables, a: Step, b: Step, c: Step)
    ensures Run(t, [a] + [b, c]) == Apply(Apply(Apply(t, a), b), c)
  {
    assert ([a] + [b, c])[1..] == [b, c];
    RunTwo(Apply(t, a), b, c);
  }

  /** Finishing an assignment and releasing the lease it names leaves it without an active lease. */
  lemma ReleaseSettles(t: Tables, a: Id, status: AssignmentStatus, leaseId: Id)
    requires LeasesSound(t) && a in t.assignments && t.assignments[a].leaseId == Some(leaseId) && leaseId in t.leases
    ensures Unleased(Release(SetStatus(t, a, status), leaseId, t.assignments[a].workerId, t.leases[leaseId].fence), a)
  {
    var u := SetStatus(t, a, status);
    var v := Release(u, leaseId, t.assignments[a].workerId, t.leases[leaseId].fence);
    assert u.leases == t.leases;
    forall l | l in v.leases && v.leases[l].assignmentId == a
      ensures v.leases[l].status != Active
    {
      if t.leases[l].status == Active {
        assert t.assignments[t.leases[l].assignmentId].leaseId == Some(l);
      }
    }
  }

  lemma ReceiveSettles(t: Tables, d: Delivery, now: int, status: AssignmentStatus)
    requires Inv(t) && AcceptReply(t, d, now).Taken?
    ensures Unleased(Run(t, [DoAccept(d, now)] + [DoSetStatus(d.assignmentId, status), DoRelease(d.leaseId, d.workerId, d.fence)]),
                     d.assignmentId)
  {
    hide LogFenced, LogStored, OrdinalsDense, CursorsTrack, MaxOrdinal, Unleased, LeasesSound;
    RunThree(t, DoAccept(d, now), DoSetStatus(d.assignmentId, status), DoRelease(d.leaseId, d.workerId, d.fence));
    var u := Accept(t, d, now);
    AcceptOnlyStatuses(t, d, now);
    StepKeepsLeases(t, DoAccept(d, now));
    ReleaseSettles(u, d.assignmentId, status, d.leaseId);
  }

  lemma HandlerSettles(t: Tables, h: Handler, a: Id)
    requires Inv(t) && Settled(t)
    requires var u := Handle(t, h); a in u.assignments && Terminal(u.assignments[a].status)
    ensures Unleased(Handle(t, h), a)
  {
    hide LogFenced, LogStored, OrdinalsDense, CursorsTrack, LeasesSound, Unleased, Run, AcceptReply, Frozen;
    if a in t.assignments && Terminal(t.assignments[a].status) {
      HandlerFreezes(t, h, a);
      FrozenIsFinal(t, Handle(t, h), a);
    } else if h.Receive? && h.delivery.assignmentId == a && (h.kind.SaysResult? || h.kind.SaysError?) && Steps(t, h) != [] {
      ReceiveSettles(t, h.delivery, h.now, if h.kind.SaysError? then Failed else if h.kind.cancelled then Cancelled else Completed);
    } else if h.CancelAssignment? && h.assignmentId == a && Steps(t, h) != [] {
      RunTwo(t, Steps(t, h)[0], Steps(t, h)[1]);
      ReleaseSettles(t, a, Cancelled, t.assignments[a].leaseId.value);
    } else {
      RunStaysOpen(t, Steps(t, h), a);
    }
  }

  lemma {:induction false} HandlersSettle(t: Tables, hs: seq<Handler>)
    requires Inv(t) && Settled(t)
    ensures Settled(HandleAll(t, hs)) && Inv(HandleAll(t, hs))
    decreases |hs|
  {
    hide Inv, Handle, Unleased;
    if hs != [] {
      var u := Handle(t, hs[0]);
      forall a | a in u.assignments && Terminal(u.assignments[a].status)
        ensures Unleased(u, a)
      {
        HandlerSettles(t, hs[0], a);
      }
      HandleKeepsInv(t, hs[0]);
      HandlersSettle(u, hs[1..]);
    }
  }

  /** In every run of whole handlers, finished means final. */
  lemma FinishedMeansFinal(before: seq<Handler>, after: seq<Handler>, a: Id)
    requires var t := HandleAll(EMPTY, before); a in t.assignments && Terminal(t.assignments[a].status)
    ensures Frozen(HandleAll(EMPTY, before), HandleAll(HandleAll(EMPTY, before), after), a)
  {
    EmptyInv();
    HandlersSettle(EMPTY, before);
    FinalStaysFinal(HandleAll(EMPTY, before), after, a);
  }

  // ------------------------------------------------------------------ a crash inside a handler

  /** Some string is not in a finite set of strings. */
  lemma FreshId(ids: set<Id>) returns (id: Id)
    ensures id !in ids
  {
    var n := LongerThanAll(ids);
    id := seq(n, _ => 'x');
  }

  lemma LongerThanAll(ids: set<Id>) returns (n: nat)
    ensures forall x | x in ids :: |x| < n
    decreases |ids|
  {
    if ids == {} {
      n := 0;
    } else {
      var y :| y in ids;
      n := LongerThanAll(ids - {y});
      assert forall x | x in ids && x != y :: x in ids - {y};
      if n <= |y| { n := |y| + 1; }
    }
  }

  /** While a lease is active, its holder's `started` message takes a finished assignment back to running. */
  lemma ActiveLeaseReopens(t: Tables, a: Id, l: Id) returns (h: Handler)
    requires Inv(t) && a in t.assignments
    requires l in t.leases && t.leases[l].assignmentId == a && t.leases[l].status == Active
    ensures a in Handle(t, h).assignments && Handle(t, h).assignments[a].status == Running
  {
    hide LogFenced, LogStored, OrdinalsDense, CursorsTrack, MaxOrdinal;
    var lease := t.leases[l];
    var message := FreshId(t.events.Keys);
    var connection := FreshId(set k | k in t.cursors :: k.connectionId);
    var d := Delivery(a, lease.workerId, l, lease.fence, 1, message, "", Some(connection));
    var now := lease.expiresAt - 1;
    assert d.Key().connectionId == connection;
    assert AcceptReply(t, d, now) == Taken(false, 1);
    h := Receive(SaysStarted, d, 1, now, now);
    assert Steps(t, h) == [DoAccept(d, now), DoSetStatus(a, Running)];
    RunTwo(t, DoAccept(d, now), DoSetStatus(a, Running));
    AcceptOnlyStatuses(t, d, now);
  }

  /** A finished assignment stays finished in every continuation iff no active lease is left for it. */
  lemma FinalIffUnleased(t: Tables, a: Id)
    requires Inv(t) && a in t.assignments && Terminal(t.assignments[a].status)
    ensures Unleased(t, a) <==> forall hs :: !Open(HandleAll(t, hs), a)
  {
    hide Inv, Handle;
    if Unleased(t, a) {
      forall hs
        ensures !Open(HandleAll(t, hs), a)
      {
        FinalStaysFinal(t, hs, a);
      }
    } else {
      var l :| l in t.leases && t.leases[l].assignmentId == a && t.leases[l].status == Active;
      var h := ActiveLeaseReopens(t, a, l);
      assert Open(HandleAll(t, [h]), a);
    }
  }

  /**
   * If the process dies after a result's status is stored but before its lease is released, the
   * assignment is finished yet not final.
   */
  lemma CrashBeforeRelease(t: Tables, h: Handler)
    requires Inv(t) && h.Receive? && (h.kind.SaysResult? || h.kind.SaysError?) && !AcceptReply(t, h.delivery, h.now).Refused?
    ensures var u, a := Run(t, Steps(t, h)[..2]), h.delivery.assignmentId;
            && a in u.assignments && Terminal(u.assignments[a].status)
            && exists hs :: Open(HandleAll(u, hs), a)
  {
    hide LogFenced, LogStored, OrdinalsDense, CursorsTrack, MaxOrdinal, LeasesSound;
    var d, steps := h.delivery, Steps(t, h)[..2];
    assert steps == [DoAccept(d, h.now), steps[1]];
    RunTwo(t, steps[0], steps[1]);
    AcceptOnlyStatuses(t, d, h.now);
    AcceptUnderNewestLease(t, d, h.now);
    var u := Run(t, steps);
    RunKeepsInv(t, steps);
    assert u.leases[d.leaseId].status == Active && u.leases[d.leaseId].assignmentId == d.assignmentId;
    FinalIffUnleased(u, d.assignmentId);
  }
}
