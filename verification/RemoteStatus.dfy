/**
 * What the messages of a worker do to its assignment and lease, and what the status of an assignment says about the run
 * behind it (packages/remote/src/index.ts).
 */
module RemoteStatus {
  import opened Numbers
  import opened Strings
  import opened RemoteStore
  import opened RemoteHandlers

  // ------------------------------------------------------------------ one message

  /**
   * A taken message acts on its own assignment and its own lease only: the assignment ends accepted, running, completed,
   * cancelled or failed as the message says, a result or an error releases the lease, and a renewal moves its deadline.
   */
  ghost predicate Acted(t: Tables, u: Tables, kind: Kind, d: Delivery, ms: int, later: int) {
    && u.assignments.Keys == t.assignments.Keys && d.assignmentId in t.assignments
    && u.leases.Keys == t.leases.Keys && d.leaseId in t.leases
    && (forall a | a in t.assignments && a != d.assignmentId :: u.assignments[a] == t.assignments[a])
    && (forall l | l in t.leases && l != d.leaseId :: u.leases[l] == t.leases[l])
    && var a, b, l, m := t.assignments[d.assignmentId], u.assignments[d.assignmentId], t.leases[d.leaseId], u.leases[d.leaseId];
       match kind
       case SaysAccepted => b == a.(status := Accepted) && m == l
       case SaysStarted => b == a.(status := Running) && m == l
       case SaysResult(true) => b == a.(status := Cancelled) && m == l.(status := Released)
       case SaysResult(false) => b == a.(status := Completed) && m == l.(status := Released)
       case SaysError => b == a.(status := Failed) && m == l.(status := Released)
       case SaysRenew =>
         b == a && m == if 0 < ms <= MAX_SAFE_INTEGER && later < l.expiresAt then l.(expiresAt := later + ms) else l
       case SaysOther => b == a && m == l
  }

  lemma TakenIsLive(t: Tables, d: Delivery, now: int)
    requires AcceptReply(t, d, now).Taken?
    ensures d.assignmentId in t.assignments && d.leaseId in t.leases
    ensures t.leases[d.leaseId].status == Active && t.leases[d.leaseId].workerId == d.workerId && t.leases[d.leaseId].fence == d.fence
  {}

  lemma ReceiveActs(t: Tables, kind: Kind, d: Delivery, ms: int, now: int, later: int)
    ensures var u := Handle(t, Receive(kind, d, ms, now, later));
            if AcceptReply(t, d, now).Taken? then Acted(t, u, kind, d, ms, later)
            else u == t
  {
    hide AcceptReply, Accept, Run;
    if AcceptReply(t, d, now).Taken? {
      var v := Accept(t, d, now);
      TakenIsLive(t, d, now);
      AcceptOnlyStatuses(t, d, now);
      RunFirst(t, DoAccept(d, now), AfterAccept(kind, d, ms, later));
      ActsAfterAccept(v, kind, d, ms, later);
      hide AfterAccept;
      ActedOnSame(t, v, Run(v, AfterAccept(kind, d, ms, later)), kind, d, ms, later);
    } else {
      RunNone(t);
    }
  }

  /** A message taken for the first time is logged under its assignment, lease and connection; nothing else ever is. */
  ghost predicate LogsExactly(t: Tables, u: Tables, d: Delivery, now: int) {
    if AcceptReply(t, d, now).Taken? && d.messageId !in t.events then
      && |u.log| == |t.log| + 1 && u.log[..|t.log|] == t.log
      && var e := u.log[|t.log|];
         && e.messageId == d.messageId && e.payload == d.payload && e.sequence == d.sequence && e.fence == d.fence
         && e.key == CursorKey(d.assignmentId, d.leaseId, if d.connection.Some? then d.connection.value else "legacy")
    else u.log == t.log
  }

  lemma ReceiveLogs(t: Tables, kind: Kind, d: Delivery, ms: int, now: int, later: int)
    ensures LogsExactly(t, Handle(t, Receive(kind, d, ms, now, later)), d, now)
  {
    hide Run, Accept, MaxOrdinal, UnderLiveLease;
    var h := Receive(kind, d, ms, now, later);
    if AcceptReply(t, d, now).Taken? {
      var v := Accept(t, d, now);
      StepAppends(t, DoAccept(d, now));
      assert v.log == if d.messageId in t.events then t.log else t.log + [EntryOf(t, d)];
      RunFirst(t, DoAccept(d, now), AfterAccept(kind, d, ms, later));
      NoAcceptLogsNothing(v, AfterAccept(kind, d, ms, later));
    } else {
      RunNone(t);
    }
  }

  lemma {:induction false} NoAcceptLogsNothing(t: Tables, steps: seq<Step>)
    requires forall i | 0 <= i < |steps| :: !steps[i].DoAccept?
    ensures Run(t, steps).log == t.log
    decreases |steps|
  {
    hide Apply;
    if steps != [] {
      StepAppends(t, steps[0]);
      NoAcceptLogsNothing(Apply(t, steps[0]), steps[1..]);
    }
  }

  lemma ActedOnSame(t: Tables, v: Tables, u: Tables, kind: Kind, d: Delivery, ms: int, later: int)
    requires v.assignments == t.assignments && v.leases == t.leases && Acted(v, u, kind, d, ms, later)
    ensures Acted(t, u, kind, d, ms, later)
  {}

  lemma ActsAfterAccept(t: Tables, kind: Kind, d: Delivery, ms: int, later: int)
    requires d.assignmentId in t.assignments && d.leaseId in t.leases && t.leases[d.leaseId].status == Active
    requires t.leases[d.leaseId].workerId == d.workerId && t.leases[d.leaseId].fence == d.fence
    ensures Acted(t, Run(t, AfterAccept(kind, d, ms, later)), kind, d, ms, later)
  {
    hide Run, Acted, Renew, SetStatus, Release, Apply;
    var steps := AfterAccept(kind, d, ms, later);
    match kind {
      case SaysResult(_) =>
        RunTwo(t, steps[0], steps[1]);
        ClosingActs(t, kind, d, ms, later, steps[0].status);
      case SaysError =>
        RunTwo(t, steps[0], steps[1]);
        ClosingActs(t, kind, d, ms, later, steps[0].status);
      case SaysOther =>
        RunNone(t);
        SilenceActs(t, d, ms, later);
      case _ =>
        RunOne(t, steps[0]);
        OneStepActs(t, kind, d, ms, later);
    }
  }

  lemma SilenceActs(t: Tables, d: Delivery, ms: int, later: int)
    requires d.assignmentId in t.assignments && d.leaseId in t.leases
    ensures Acted(t, t, SaysOther, d, ms, later)
  {}

  lemma OneStepActs(t: Tables, kind: Kind, d: Delivery, ms: int, later: int)
    requires d.assignmentId in t.assignments && d.leaseId in t.leases && t.leases[d.leaseId].status == Active
    requires t.leases[d.leaseId].workerId == d.workerId && (kind.SaysRenew? || kind.SaysAccepted? || kind.SaysStarted?)
    ensures Acted(t, Apply(t, AfterAccept(kind, d, ms, later)[0]), kind, d, ms, later)
  {}

  lemma ClosingActs(t: Tables, kind: Kind, d: Delivery, ms: int, later: int, status: AssignmentStatus)
    requires d.assignmentId in t.assignments && d.leaseId in t.leases && t.leases[d.leaseId].status == Active
    requires t.leases[d.leaseId].workerId == d.workerId && t.leases[d.leaseId].fence == d.fence
    requires kind.SaysResult? || kind.SaysError?
    requires status == if kind.SaysError? then Failed else if kind.cancelled then Cancelled else Completed
    ensures Acted(t, Apply(Apply(t, DoSetStatus(d.assignmentId, status)), DoRelease(d.leaseId, d.workerId, d.fence)), kind, d, ms, later)
  {
    ReleaseActs(t, d, status);
    hide Release, SetStatus;
  }

  lemma ReleaseActs(t: Tables, d: Delivery, status: AssignmentStatus)
    requires d.assignmentId in t.assignments && d.leaseId in t.leases && t.leases[d.leaseId].status == Active
    requires t.leases[d.leaseId].workerId == d.workerId && t.leases[d.leaseId].fence == d.fence
    ensures var u := Release(SetStatus(t, d.assignmentId, status), d.leaseId, d.workerId, d.fence);
            && u.assignments == t.assignments[d.assignmentId := t.assignments[d.assignmentId].(status := status)]
            && u.leases == t.leases[d.leaseId := t.leases[d.leaseId].(status := Released)]
  {}

  // ------------------------------------------------------------------ the status tells the last event

  /** The events in the life of an assignment that decide its status. */
  datatype Word = Created | Granted | Said(kind: Kind) | Stopped | Ended

  /** What a handler does to the assignment, told from its effect on leases and from the replies of the store. */
  ghost function WordOf(t: Tables, h: Handler, a: Id): Option<Word> {
    match h
    case Dispatch(id, _, _, _, l) =>
      if id != a || a in t.assignments then None
      else if l !in t.leases && l in Handle(t, h).leases then Some(Granted) else Some(Created)
    case RecoverOne(id, _, _, _, l) =>
      if id == a && l !in t.leases && l in Handle(t, h).leases then Some(Granted) else None
    case Receive(kind, d, _, now, _) =>
      if d.assignmentId == a && AcceptReply(t, d, now).Taken? && !kind.SaysRenew? && !kind.SaysOther? then Some(Said(kind)) else None
    case CancelAssignment(id, connected) => if id == a && Cancellable(t, a, connected) then Some(Stopped) else None
    case ExpireLeases(now) =>
      if exists l :: l in t.leases && t.leases[l].assignmentId == a && Overdue(t.leases[l], now) then Some(Ended) else None
  }

  /** The end of a lease counts only after a grant or a start: what a worker has accepted stays accepted. */
  function Latest(last: Option<Word>, word: Option<Word>): Option<Word> {
    if word.None? then last
    else if word == Some(Ended) && last != Some(Granted) && last != Some(Said(SaysStarted)) then last
    else word
  }

  ghost function LastWord(hs: seq<Handler>, a: Id): Option<Word>
    decreases |hs|
  {
    if hs == [] then None
    else
      var n := |hs| - 1;
      Latest(LastWord(hs[..n], a), WordOf(HandleAll(EMPTY, hs[..n]), hs[n], a))
  }

  /** The status that each event leaves behind. */
  predicate Tells(word: Option<Word>, status: AssignmentStatus) {
    && word.Some?
    && match status
       case Assigned => word.value == Created
       case Dispatched => word.value == Granted
       case Accepted => word.value == Said(SaysAccepted)
       case Running => word.value == Said(SaysStarted)
       case Expired => word.value == Ended
       case Completed => word.value == Said(SaysResult(false))
       case Failed => word.value == Said(SaysError)
       case Cancelled => word.value == Stopped || word.value == Said(SaysResult(true))
  }

  /** What is known of the assignment between two handlers. */
  ghost predicate Told(t: Tables, last: Option<Word>, a: Id) {
    a in t.assignments ==> Tells(last, t.assignments[a].status)
  }

  lemma DispatchTells(t: Tables, h: Handler, a: Id, last: Option<Word>)
    requires h.Dispatch? && Told(t, last, a)
    ensures Told(Handle(t, h), Latest(last, WordOf(t, h, a)), a)
  {
    hide AcquireRefusal, MaxFence, Run;
    if h.jobId in t.assignments {
      RunNone(t);
    } else {
      RunTwo(t, DoAssign(h.jobId, h.workerId), DoAcquire(h.jobId, h.workerId, h.leaseMs, h.now, h.leaseId));
      AcquireTells(Assign(t, h.jobId, h.workerId), h.jobId, h.workerId, h.leaseMs, h.now, h.leaseId, a);
      hide Acquire;
    }
  }

  lemma RecoveryTells(t: Tables, h: Handler, a: Id, last: Option<Word>)
    requires h.RecoverOne? && Told(t, last, a)
    ensures Told(Handle(t, h), Latest(last, WordOf(t, h, a)), a)
  {
    hide AcquireRefusal, Acquire, Run;
    RunOne(t, DoAcquire(h.assignmentId, h.workerId, h.leaseMs, h.now, h.leaseId));
    AcquireTells(t, h.assignmentId, h.workerId, h.leaseMs, h.now, h.leaseId, a);
  }

  /** Either a new lease appears and its assignment is dispatched, or nothing changes. */
  lemma AcquireTells(t: Tables, id: Id, worker: Id, ttl: int, now: int, l: Id, a: Id)
    ensures var u := Acquire(t, id, worker, ttl, now, l);
            if l !in t.leases && l in u.leases
            then id in t.assignments && id in u.assignments && u.assignments[id].status == Dispatched
                 && u.assignments.Keys == t.assignments.Keys
                 && (a != id && a in t.assignments ==> u.assignments[a] == t.assignments[a])
            else u == t
  {
    hide MaxFence;
  }

  lemma ReceiptTells(t: Tables, h: Handler, a: Id, last: Option<Word>)
    requires h.Receive? && Told(t, last, a)
    ensures Told(Handle(t, h), Latest(last, WordOf(t, h, a)), a)
  {
    hide Handle, AcceptReply;
    ReceiveActs(t, h.kind, h.delivery, h.leaseMs, h.now, h.later);
  }

  lemma CancelTells(t: Tables, h: Handler, a: Id, last: Option<Word>)
    requires h.CancelAssignment? && Told(t, last, a)
    ensures Told(Handle(t, h), Latest(last, WordOf(t, h, a)), a)
  {
    hide Run;
    if Cancellable(t, h.assignmentId, h.connected) {
      RunTwo(t, Steps(t, h)[0], Steps(t, h)[1]);
    } else {
      RunNone(t);
    }
  }

  lemma SweepTells(t: Tables, h: Handler, a: Id, last: Option<Word>)
    requires LeasesSound(t) && h.ExpireLeases? && Told(t, last, a)
    ensures Told(Handle(t, h), Latest(last, WordOf(t, h, a)), a)
  {
    hide Run, LeasesSound, Expire, Overdue;
    RunOne(t, DoExpire(h.now));
    assert Expire(t, h.now).assignments.Keys == t.assignments.Keys by { SweepKeepsRows(t, h.now); }
    if a in t.assignments { SweepExpires(t, h.now, a); }
  }

  lemma SweepKeepsRows(t: Tables, now: int)
    ensures Expire(t, now).assignments.Keys == t.assignments.Keys
  {}

  lemma SweepExpires(t: Tables, now: int, a: Id)
    requires LeasesSound(t) && a in t.assignments
    ensures Expire(t, now).assignments.Keys == t.assignments.Keys
    ensures Expire(t, now).assignments[a].status
            == if t.assignments[a].status in {Dispatched, Running}
                  && (exists l :: l in t.leases && t.leases[l].assignmentId == a && Overdue(t.leases[l], now))
               then Expired else t.assignments[a].status
  {
    if l :| l in t.leases && t.leases[l].assignmentId == a && Overdue(t.leases[l], now) {
      assert t.assignments[a].leaseId == Some(l);
    }
  }

  lemma HandlerTells(t: Tables, h: Handler, a: Id, last: Option<Word>)
    requires Inv(t) && Told(t, last, a)
    ensures Told(Handle(t, h), Latest(last, WordOf(t, h, a)), a)
  {
    hide Told, Handle, Latest, LeasesSound, LogFenced, LogStored, OrdinalsDense, CursorsTrack, WordOf;
    match h
    case Dispatch(_, _, _, _, _) => DispatchTells(t, h, a, last);
    case Receive(_, _, _, _, _) => ReceiptTells(t, h, a, last);
    case ExpireLeases(_) => SweepTells(t, h, a, last);
    case RecoverOne(_, _, _, _, _) => RecoveryTells(t, h, a, last);
    case CancelAssignment(_, _) => CancelTells(t, h, a, last);
  }

  lemma {:induction false} HandleLast(t: Tables, hs: seq<Handler>)
    requires hs != []
    ensures HandleAll(t, hs) == Handle(HandleAll(t, hs[..|hs| - 1]), hs[|hs| - 1])
    decreases |hs|
  {
    hide Handle;
    if |hs| == 1 {
      var none: seq<Handler> := [];
      assert hs[1..] == none && hs[..0] == none;
    } else {
      assert hs[..|hs| - 1][1..] == hs[1..][..|hs| - 2];
      HandleLast(Handle(t, hs[0]), hs[1..]);
    }
  }

  /**
   * After every run of handlers the status of an assignment is the trace of its last event: it is completed exactly when the
   * last status message admitted for it was a result that was not cancelled and no cancellation followed, and so on.
   */
  lemma {:induction false} StatusTellsLastWord(hs: seq<Handler>, a: Id)
    requires a in HandleAll(EMPTY, hs).assignments
    ensures Tells(LastWord(hs, a), HandleAll(EMPTY, hs).assignments[a].status)
  {
    ToldThroughout(hs, a);
  }

  lemma {:induction false} ToldThroughout(hs: seq<Handler>, a: Id)
    ensures Told(HandleAll(EMPTY, hs), LastWord(hs, a), a)
    decreases |hs|
  {
    hide Handle, Latest, WordOf, Inv, Tells;
    if hs != [] {
      var n := |hs| - 1;
      ToldThroughout(hs[..n], a);
      EmptyInv();
      HandleAllKeepsInv(EMPTY, hs[..n]);
      HandlerTells(HandleAll(EMPTY, hs[..n]), hs[n], a, LastWord(hs[..n], a));
      HandleLast(EMPTY, hs);
    }
  }

  /** What is neither decided nor changed again: the event, and no other after it but the ends of leases. */
  ghost predicate Decides(hs: seq<Handler>, k: nat, a: Id, word: Word) {
    && k < |hs| && WordOf(HandleAll(EMPTY, hs[..k]), hs[k], a) == Some(word)
    && forall j | k < j < |hs| :: WordOf(HandleAll(EMPTY, hs[..j]), hs[j], a) in {None, Some(Ended)}
  }

  lemma {:induction false} LastWordIsSaid(hs: seq<Handler>, a: Id) returns (k: nat)
    requires LastWord(hs, a).Some?
    ensures LastWord(hs, a).value == Ended || Decides(hs, k, a, LastWord(hs, a).value)
    decreases |hs|
  {
    hide WordOf, HandleAll, Decides;
    var n := |hs| - 1;
    k := n;
    var now := WordOf(HandleAll(EMPTY, hs[..n]), hs[n], a);
    if LastWord(hs, a) != now {
      k := LastWordIsSaid(hs[..n], a);
      if LastWord(hs, a).value != Ended { StillDecides(hs, k, a, LastWord(hs, a).value); }
    } else {
      DecidesAtOnce(hs, a);
    }
  }

  lemma DecidesAtOnce(hs: seq<Handler>, a: Id)
    requires hs != [] && WordOf(HandleAll(EMPTY, hs[..|hs| - 1]), hs[|hs| - 1], a).Some?
    ensures Decides(hs, |hs| - 1, a, WordOf(HandleAll(EMPTY, hs[..|hs| - 1]), hs[|hs| - 1], a).value)
  {}

  lemma StillDecides(hs: seq<Handler>, k: nat, a: Id, word: Word)
    requires hs != [] && Decides(hs[..|hs| - 1], k, a, word)
    requires WordOf(HandleAll(EMPTY, hs[..|hs| - 1]), hs[|hs| - 1], a) in {None, Some(Ended)}
    ensures Decides(hs, k, a, word)
  {
    hide WordOf, HandleAll;
    var n := |hs| - 1;
    forall j | 0 <= j < n
      ensures hs[..n][..j] == hs[..j] && hs[..n][j] == hs[j]
    {}
  }

  /** A completed assignment has a taken result that was not cancelled, and nothing after it said otherwise. */
  lemma CompletedMeansReported(hs: seq<Handler>, a: Id) returns (k: nat)
    requires a in HandleAll(EMPTY, hs).assignments && HandleAll(EMPTY, hs).assignments[a].status == Completed
    ensures k < |hs| && hs[k].Receive? && hs[k].kind == SaysResult(false) && hs[k].delivery.assignmentId == a
    ensures AcceptReply(HandleAll(EMPTY, hs[..k]), hs[k].delivery, hs[k].now).Taken?
    ensures Decides(hs, k, a, Said(SaysResult(false)))
  {
    hide AcceptReply, HandleAll, Handle, Cancellable;
    StatusTellsLastWord(hs, a);
    k := LastWordIsSaid(hs, a);
  }
}
