/** Verified execution of a task graph with retries, reopened work, pauses and failures (packages/planner/src/index.ts). */
module Planner {
  import opened Strings

  type Id = string

  datatype TaskStatus = Pending | Ready | Running | Waiting | Blocked | Completed | Failed | NeedsApproval

  datatype Policy = Retryable | NonRetryable | Blocking | AskApproval | AskHuman

  datatype Task = Task(id: Id, verify: bool, status: TaskStatus, dependencies: seq<Id>, retryCount: nat, maxRetries: nat)

  datatype PlanStatus = PlanRunning | PlanPaused | PlanCompleted | PlanWaiting | PlanFailed

  /** What the executor or the reviewer answers to one call; an exception may carry a failure policy. */
  datatype Reply = Done | Rejected(policy: Option<Policy>) | Threw(policy: Option<Policy>)

  datatype Approval = Granted | Denied | Undecided

  // ------------------------------------------------------------------ task tables

  predicate UniqueIds(ts: seq<Task>) {
    forall i, j | 0 <= i < j < |ts| :: ts[i].id != ts[j].id
  }

  function Find(ts: seq<Task>, id: Id): (r: Option<nat>)
    ensures r.Some? ==> r.value < |ts| && ts[r.value].id == id
    ensures r.None? ==> forall i | 0 <= i < |ts| :: ts[i].id != id
  {
    if ts == [] then None
    else if ts[0].id == id then Some(0)
    else
      match Find(ts[1..], id)
      case None => None
      case Some(k) => Some(k + 1)
  }

  predicate Resolved(ts: seq<Task>) {
    forall i, d | 0 <= i < |ts| && d in ts[i].dependencies :: Find(ts, d).Some?
  }

  /** The dependency graph is acyclic, witnessed by ranks. */
  ghost predicate Ranked(ts: seq<Task>, rank: map<Id, nat>) {
    && (forall i | 0 <= i < |ts| :: ts[i].id in rank)
    && forall i, d | 0 <= i < |ts| && d in ts[i].dependencies :: d in rank && rank[d] < rank[ts[i].id]
  }

  predicate WithinRetries(ts: seq<Task>) {
    forall i | 0 <= i < |ts| :: ts[i].retryCount <= ts[i].maxRetries
  }

  ghost predicate WellFormed(ts: seq<Task>, rank: map<Id, nat>) {
    UniqueIds(ts) && Resolved(ts) && Ranked(ts, rank) && WithinRetries(ts)
  }

  /** A status from which `run` never takes a task any further by itself. */
  predicate Stalled(t: Task) {
    t.status in {Running, Waiting, Blocked, Failed, NeedsApproval}
  }

  predicate NoneStalled(ts: seq<Task>) {
    forall i | 0 <= i < |ts| :: !Stalled(ts[i])
  }

  predicate AllCompleted(ts: seq<Task>) {
    forall i | 0 <= i < |ts| :: ts[i].status == Completed
  }

  /** Only statuses and retry counts may differ. */
  predicate SameGraph(a: seq<Task>, b: seq<Task>) {
    |a| == |b| && forall i | 0 <= i < |a| :: b[i] == a[i].(status := b[i].status, retryCount := b[i].retryCount)
  }

  lemma FindUnchanged(a: seq<Task>, b: seq<Task>, id: Id)
    requires SameGraph(a, b)
    ensures Find(a, id) == Find(b, id)
    decreases |a|
  {
    if a != [] { FindUnchanged(a[1..], b[1..], id); }
  }

  lemma SameGraphKeepsShape(a: seq<Task>, b: seq<Task>, rank: map<Id, nat>)
    requires SameGraph(a, b) && UniqueIds(a) && Resolved(a) && Ranked(a, rank)
    ensures UniqueIds(b) && Resolved(b) && Ranked(b, rank)
  {
    forall i, d | 0 <= i < |b| && d in b[i].dependencies
      ensures Find(b, d).Some?
    {
      assert d in a[i].dependencies;
      FindUnchanged(a, b, d);
    }
  }

  // ------------------------------------------------------------------ the bound U + 2R

  /** One for work left to do, two for every retry still allowed. */
  function Work(t: Task): int {
    (if t.status == Completed then 0 else 1) + 2 * (t.maxRetries - t.retryCount)
  }

  /** U + 2R: uncompleted tasks plus twice the retries left. */
  function Weight(ts: seq<Task>): int {
    if ts == [] then 0 else Work(ts[0]) + Weight(ts[1..])
  }

  lemma {:induction false} WeightUpdate(ts: seq<Task>, i: nat, t: Task)
    requires i < |ts|
    ensures Weight(ts[i := t]) == Weight(ts) - Work(ts[i]) + Work(t)
    decreases |ts|
  {
    if i == 0 {
      assert ts[0 := t][1..] == ts[1..];
    } else {
      assert ts[i := t][1..] == ts[1..][i - 1 := t];
      WeightUpdate(ts[1..], i - 1, t);
    }
  }

  lemma {:induction false} WeightCountsWork(ts: seq<Task>)
    requires WithinRetries(ts)
    ensures Weight(ts) >= 0
    ensures (exists i | 0 <= i < |ts| :: ts[i].status != Completed) ==> Weight(ts) >= 1
    decreases |ts|
  {
    if ts != [] {
      assert WithinRetries(ts[1..]);
      WeightCountsWork(ts[1..]);
      if exists i | 0 <= i < |ts| :: ts[i].status != Completed {
        var i :| 0 <= i < |ts| && ts[i].status != Completed;
        assert i > 0 ==> ts[1..][i - 1].status != Completed;
      }
    }
  }

  lemma {:induction false} WeightOfPromotion(a: seq<Task>, b: seq<Task>)
    requires |a| == |b|
    requires forall i | 0 <= i < |a| :: Work(a[i]) == Work(b[i])
    ensures Weight(a) == Weight(b)
    decreases |a|
  {
    if a != [] { WeightOfPromotion(a[1..], b[1..]); }
  }

  // ------------------------------------------------------------------ promotion

  predicate DependencyBroken(ts: seq<Task>, t: Task) {
    exists d | d in t.dependencies :: Find(ts, d).Some? && ts[Find(ts, d).value].status in {Failed, Blocked}
  }

  predicate DependenciesDone(ts: seq<Task>, t: Task) {
    forall d | d in t.dependencies :: exists k | 0 <= k < |ts| :: ts[k].id == d && ts[k].status == Completed
  }

  /** What a pending task becomes, judged on the table as it was before the pass. */
  function Promote(ts: seq<Task>, t: Task): Task {
    if t.status != Pending then t
    else if DependencyBroken(ts, t) then t.(status := Blocked)
    else if DependenciesDone(ts, t) then t.(status := Ready)
    else t
  }

  function Promoted(ts: seq<Task>): (r: seq<Task>)
    ensures |r| == |ts| && forall i | 0 <= i < |ts| :: r[i] == Promote(ts, ts[i])
  {
    seq(|ts|, i requires 0 <= i < |ts| => Promote(ts, ts[i]))
  }

  /**
   * What a promotion pass does, in terms of the table alone: a pending task turns ready exactly when every dependency names
   * a completed task and none a failed or blocked one, and blocked exactly when one does; nothing else changes.
   */
  ghost predicate Promotes(ts: seq<Task>, us: seq<Task>) {
    |us| == |ts| && forall i | 0 <= i < |ts| :: PromotesOne(ts, ts[i], us[i])
  }

  ghost predicate PromotesOne(ts: seq<Task>, t: Task, u: Task) {
    && u == t.(status := u.status)
    && (t.status != Pending ==> u == t)
    && (t.status == Pending ==>
          && u.status in {Pending, Ready, Blocked}
          && (u.status == Ready <==>
                && (forall d | d in t.dependencies :: exists k | 0 <= k < |ts| :: ts[k].id == d && ts[k].status == Completed)
                && forall k | 0 <= k < |ts| && ts[k].id in t.dependencies :: ts[k].status !in {Failed, Blocked})
          && (u.status == Blocked <==> exists k | 0 <= k < |ts| :: ts[k].id in t.dependencies && ts[k].status in {Failed, Blocked}))
  }

  lemma PromotedExactlyWhen(ts: seq<Task>)
    requires UniqueIds(ts)
    ensures Promotes(ts, Promoted(ts))
  {
    hide PromotesOne, Promote, UniqueIds;
    forall i | 0 <= i < |ts|
      ensures PromotesOne(ts, ts[i], Promoted(ts)[i])
    {
      PromotedOneExactlyWhen(ts, ts[i]);
    }
  }

  lemma PromotedOneExactlyWhen(ts: seq<Task>, t: Task)
    requires UniqueIds(ts)
    ensures PromotesOne(ts, t, Promote(ts, t))
  {
    hide DependencyBroken, UniqueIds;
    BrokenExactlyWhen(ts, t);
  }

  lemma BrokenExactlyWhen(ts: seq<Task>, t: Task)
    requires UniqueIds(ts)
    ensures DependencyBroken(ts, t) <==> exists k | 0 <= k < |ts| :: ts[k].id in t.dependencies && ts[k].status in {Failed, Blocked}
  {
    if k :| 0 <= k < |ts| && ts[k].id in t.dependencies && ts[k].status in {Failed, Blocked} {
      assert Find(ts, ts[k].id) == Some(k);
    }
  }

  function ReadyIndices(ts: seq<Task>, n: nat): (r: seq<nat>)
    requires n <= |ts|
    ensures forall k | 0 <= k < |r| :: r[k] < n && ts[r[k]].status == Ready
    ensures forall i | 0 <= i < n && ts[i].status == Ready :: i in r
    ensures forall j, k | 0 <= j < k < |r| :: r[j] < r[k]
  {
    if n == 0 then []
    else ReadyIndices(ts, n - 1) + if ts[n - 1].status == Ready then [n - 1] else []
  }

  lemma PromotionKeeps(ts: seq<Task>, rank: map<Id, nat>)
    requires WellFormed(ts, rank)
    ensures WellFormed(Promoted(ts), rank) && SameGraph(ts, Promoted(ts))
    ensures Weight(Promoted(ts)) == Weight(ts)
    ensures NoneStalled(ts) ==> NoneStalled(Promoted(ts))
  {
    var ps := Promoted(ts);
    SameGraphKeepsShape(ts, ps, rank);
    WeightOfPromotion(ts, ps);
    if NoneStalled(ts) {
      forall i | 0 <= i < |ps|
        ensures !Stalled(ps[i])
      {
        assert !Stalled(ts[i]);
        assert !DependencyBroken(ts, ts[i]);
      }
    }
  }

  /** With nothing stalled, a pending task always leads down to one that becomes ready. */
  lemma {:induction false} PendingLeadsToReady(ts: seq<Task>, rank: map<Id, nat>, i: nat) returns (k: nat)
    requires WellFormed(ts, rank) && NoneStalled(ts)
    requires i < |ts| && ts[i].status == Pending
    ensures k < |ts| && Promoted(ts)[k].status == Ready
    decreases rank[ts[i].id]
  {
    PromotionKeeps(ts, rank);
    if DependenciesDone(ts, ts[i]) {
      k := i;
      assert !Stalled(Promoted(ts)[i]);
    } else {
      var d :| d in ts[i].dependencies && !exists k | 0 <= k < |ts| :: ts[k].id == d && ts[k].status == Completed;
      var j := Find(ts, d).value;
      assert !Stalled(ts[j]) && ts[j].status != Completed;
      if ts[j].status == Pending {
        k := PendingLeadsToReady(ts, rank, j);
      } else {
        k := j;
      }
    }
  }

  /** The loop never stops early: if nothing is ready after a pass and nothing is stalled, all is completed. */
  lemma NothingReadyMeansAllDone(ts: seq<Task>, rank: map<Id, nat>)
    requires WellFormed(ts, rank) && NoneStalled(ts)
    requires ReadyIndices(Promoted(ts), |ts|) == []
    ensures AllCompleted(ts) && Promoted(ts) == ts
  {
    forall i | 0 <= i < |ts|
      ensures ts[i].status == Completed
    {
      assert !Stalled(ts[i]);
      if ts[i].status == Pending {
        var k := PendingLeadsToReady(ts, rank, i);
      } else {
        assert Promoted(ts)[i] == ts[i];
      }
    }
  }

  // ------------------------------------------------------------------ one call and its answer

  function FailureStatus(policy: Policy): TaskStatus {
    match policy
    case AskApproval => NeedsApproval
    case Blocking | AskHuman => Blocked
    case Retryable | NonRetryable => Failed
  }

  /** A failed attempt: try again if the policy and the retry budget allow it, otherwise end the plan. */
  function Settle(ts: seq<Task>, i: nat, policy: Policy): (seq<Task>, Option<PlanStatus>)
    requires i < |ts|
  {
    var t := ts[i];
    if policy == Retryable && t.retryCount < t.maxRetries then
      (ts[i := t.(status := Ready, retryCount := t.retryCount + 1)], None)
    else
      (ts[i := t.(status := FailureStatus(policy))],
       Some(if policy == AskApproval then PlanWaiting else PlanFailed))
  }

  function PolicyOr(policy: Option<Policy>, default: Policy): Policy {
    if policy.Some? then policy.value else default
  }

  /** A rejection sends the last dependency `k` back to work and lets the verification `i` wait for it. */
  function Reopen(ts: seq<Task>, k: nat, i: nat): seq<Task>
    requires k < |ts| && i < |ts|
  {
    var reopened := ts[k := ts[k].(status := Ready, retryCount := ts[k].retryCount + 1)];
    reopened[i := reopened[i].(status := Pending)]
  }

  /** The dependency a rejection sends back; an empty id counts as none. */
  function LastDependency(t: Task): (r: Option<Id>)
    ensures r.Some? ==> r.value in t.dependencies
  {
    var deps := t.dependencies;
    if deps == [] || deps[|deps| - 1] == "" then None else Some(deps[|deps| - 1])
  }

  /** The table after task `i` was attempted and answered, and the plan's final status if that ends it. */
  function Answered(ts: seq<Task>, i: nat, reply: Reply): (seq<Task>, Option<PlanStatus>)
    requires i < |ts|
  {
    match reply
    case Done => (ts[i := ts[i].(status := Completed)], None)
    case Threw(policy) => Settle(ts, i, PolicyOr(policy, Retryable))
    case Rejected(policy) =>
      if !ts[i].verify then (ts[i := ts[i].(status := Completed)], None)   // an executor's answer is always a result
      else
        var last := LastDependency(ts[i]);
        var target := if last == None then None else Find(ts, last.value);
        if last != None && target == None then Settle(ts, i, Retryable)
        else if last != None && ts[target.value].retryCount < ts[target.value].maxRetries then
          (Reopen(ts, target.value, i), None)
        else Settle(ts, i, PolicyOr(policy, NonRetryable))
  }

  /** How task `i` and the plan fare when an attempt fails under each policy; no other task changes. */
  ghost predicate Fares(ts: seq<Task>, us: seq<Task>, stop: Option<PlanStatus>, i: nat, policy: Policy)
    requires i < |ts|
  {
    var t := ts[i];
    match policy
    case Retryable =>
      if t.retryCount < t.maxRetries then stop == None && us == ts[i := t.(status := Ready, retryCount := t.retryCount + 1)]
      else stop == Some(PlanFailed) && us == ts[i := t.(status := Failed)]
    case NonRetryable => stop == Some(PlanFailed) && us == ts[i := t.(status := Failed)]
    case Blocking => stop == Some(PlanFailed) && us == ts[i := t.(status := Blocked)]
    case AskHuman => stop == Some(PlanFailed) && us == ts[i := t.(status := Blocked)]
    case AskApproval => stop == Some(PlanWaiting) && us == ts[i := t.(status := NeedsApproval)]
  }

  /** Task `k` goes back to work with one retry less, and `i` waits for it again; no other task changes. */
  ghost predicate SentBack(ts: seq<Task>, us: seq<Task>, k: nat, i: nat) {
    && |us| == |ts| && k < |ts| && i < |ts| && k != i
    && us[k] == ts[k].(status := Ready, retryCount := ts[k].retryCount + 1)
    && us[i] == ts[i].(status := Pending)
    && forall j | 0 <= j < |ts| && j != i && j != k :: us[j] == ts[j]
  }

  /**
   * What a call on task `i` leaves behind, by its answer.  An exception counts as retryable unless it says otherwise; a
   * rejected verification sends its last dependency back while that has retries left, and else fails for good unless the
   * reviewer says otherwise.
   */
  ghost predicate Acts(ts: seq<Task>, us: seq<Task>, stop: Option<PlanStatus>, i: nat, reply: Reply)
    requires i < |ts|
  {
    match reply
    case Done => stop == None && us == ts[i := ts[i].(status := Completed)]
    case Threw(policy) => Fares(ts, us, stop, i, if policy == None then Retryable else policy.value)
    case Rejected(policy) =>
      if !ts[i].verify then stop == None && us == ts[i := ts[i].(status := Completed)]
      else
        var deps := ts[i].dependencies;
        || (exists k :: 0 <= k < |ts| && deps != [] && ts[k].id == deps[|deps| - 1] && ts[k].id != ""
                        && ts[k].retryCount < ts[k].maxRetries && stop == None && SentBack(ts, us, k, i))
        || (&& (deps == [] || deps[|deps| - 1] == "" || exists k :: 0 <= k < |ts| && ts[k].id == deps[|deps| - 1] && ts[k].retryCount >= ts[k].maxRetries)
            && Fares(ts, us, stop, i, if policy == None then NonRetryable else policy.value))
  }

  /** In a well-formed plan every answer acts as it should. */
  lemma AnsweredActs(ts: seq<Task>, rank: map<Id, nat>, i: nat, reply: Reply)
    requires WellFormed(ts, rank) && i < |ts|
    ensures Acts(ts, Answered(ts, i, reply).0, Answered(ts, i, reply).1, i, reply)
  {
    if reply.Rejected? && ts[i].verify && LastDependency(ts[i]).Some? {
      var d := LastDependency(ts[i]).value;
      assert d in ts[i].dependencies && rank[d] < rank[ts[i].id];
      var k := Find(ts, d).value;
      assert ts[k].id == d && k != i;
      if ts[k].retryCount < ts[k].maxRetries {
        assert SentBack(ts, Reopen(ts, k, i), k, i);
      } else {
        assert ts[k].retryCount >= ts[k].maxRetries;
      }
    }
  }

  /** `b` differs from `a` at `i` at most by its status and one retry, elsewhere only by reopened tasks. */
  predicate Touches(a: seq<Task>, b: seq<Task>, i: nat) {
    && |a| == |b|
    && i < |a|
    && (b[i].retryCount == a[i].retryCount || (b[i].status == Ready && b[i].retryCount == a[i].retryCount + 1))
    && forall j | 0 <= j < |a| && j != i :: b[j] == a[j] || b[j] == a[j].(status := Ready, retryCount := a[j].retryCount + 1)
  }

  lemma UpdateKeeps(ts: seq<Task>, rank: map<Id, nat>, i: nat, t: Task)
    requires WellFormed(ts, rank) && i < |ts|
    requires t == ts[i].(status := t.status, retryCount := t.retryCount) && t.retryCount <= t.maxRetries
    ensures SameGraph(ts, ts[i := t]) && WellFormed(ts[i := t], rank)
    ensures Weight(ts[i := t]) == Weight(ts) - Work(ts[i]) + Work(t)
  {
    SameGraphKeepsShape(ts, ts[i := t], rank);
    WeightUpdate(ts, i, t);
  }

  lemma RetriesWithin(ts: seq<Task>, rank: map<Id, nat>)
    requires WellFormed(ts, rank)
    ensures forall i | 0 <= i < |ts| :: ts[i].retryCount <= ts[i].maxRetries
  {}

  lemma SameGraphRefl(a: seq<Task>)
    ensures SameGraph(a, a)
  {}

  lemma SameGraphOnwards(a: seq<Task>, b: seq<Task>, c: seq<Task>)
    requires SameGraph(a, b) && SameGraph(b, c)
    ensures SameGraph(a, c)
  {}

  /** What holds after a call on task `i`, whatever was answered. */
  ghost predicate AfterCall(ts: seq<Task>, us: seq<Task>, stop: Option<PlanStatus>, rank: map<Id, nat>, i: nat) {
    && SameGraph(ts, us) && WellFormed(us, rank) && Touches(ts, us, i)
    && (stop.None? ==> Weight(us) < Weight(ts) && us[i].status in {Ready, Completed, Pending})
    && (stop.Some? ==> Weight(us) == Weight(ts) && us[i].status in {NeedsApproval, Blocked, Failed}
                       && stop.value == if us[i].status == NeedsApproval then PlanWaiting else PlanFailed)
  }

  lemma SettleLowersWeight(ts: seq<Task>, rank: map<Id, nat>, i: nat, policy: Policy)
    requires WellFormed(ts, rank) && i < |ts| && ts[i].status == Ready
    ensures AfterCall(ts, Settle(ts, i, policy).0, Settle(ts, i, policy).1, rank, i)
  {
    hide WellFormed, Weight;
    var us := Settle(ts, i, policy).0;
    assert ts[i].retryCount <= ts[i].maxRetries by { RetriesWithin(ts, rank); }
    UpdateKeeps(ts, rank, i, us[i]);
  }

  lemma ReopenLowersWeight(ts: seq<Task>, rank: map<Id, nat>, k: nat, i: nat)
    requires WellFormed(ts, rank) && i < |ts| && ts[i].status == Ready
    requires k < |ts| && k != i && ts[k].retryCount < ts[k].maxRetries
    ensures AfterCall(ts, Reopen(ts, k, i), None, rank, i)
  {
    hide WellFormed, Weight;
    var mid := ts[k := ts[k].(status := Ready, retryCount := ts[k].retryCount + 1)];
    UpdateKeeps(ts, rank, k, mid[k]);
    assert mid[i].retryCount <= mid[i].maxRetries by { RetriesWithin(mid, rank); }
    UpdateKeeps(mid, rank, i, mid[i].(status := Pending));
  }

  /** A call lowers U + 2R, even one that reopens a completed task, exactly when it does not end the plan. */
  lemma AnswerLowersWeight(ts: seq<Task>, rank: map<Id, nat>, i: nat, reply: Reply)
    requires WellFormed(ts, rank) && i < |ts| && ts[i].status == Ready
    ensures AfterCall(ts, Answered(ts, i, reply).0, Answered(ts, i, reply).1, rank, i)
  {
    hide Weight, AfterCall;
    CompletionLowersWeight(ts, rank, i);
    SettleLowersWeight(ts, rank, i, Retryable);
    if reply.Threw? { SettleLowersWeight(ts, rank, i, PolicyOr(reply.policy, Retryable)); }
    if reply.Rejected? {
      SettleLowersWeight(ts, rank, i, PolicyOr(reply.policy, NonRetryable));
      if LastDependency(ts[i]).Some? {
        var d := LastDependency(ts[i]).value;
        assert d in ts[i].dependencies && rank[d] < rank[ts[i].id];
        var k := Find(ts, d).value;
        if ts[k].retryCount < ts[k].maxRetries { ReopenLowersWeight(ts, rank, k, i); }
      }
    }
  }

  lemma CompletionLowersWeight(ts: seq<Task>, rank: map<Id, nat>, i: nat)
    requires WellFormed(ts, rank) && i < |ts| && ts[i].status == Ready
    ensures AfterCall(ts, ts[i := ts[i].(status := Completed)], None, rank, i)
  {
    hide WellFormed, Weight;
    assert ts[i].retryCount <= ts[i].maxRetries by { RetriesWithin(ts, rank); }
    UpdateKeeps(ts, rank, i, ts[i].(status := Completed));
  }

  lemma FindUnchangedBy(a: seq<Task>, b: seq<Task>)
    requires SameGraph(a, b)
    ensures forall id :: Find(a, id) == Find(b, id)
  {
    forall id ensures Find(a, id) == Find(b, id) { FindUnchanged(a, b, id); }
  }

  lemma StallsStay(ts: seq<Task>)
    requires !NoneStalled(ts)
    ensures !NoneStalled(Promoted(ts))
  {
    var i :| 0 <= i < |ts| && Stalled(ts[i]);
    assert Stalled(Promoted(ts)[i]);
  }

  lemma StoppedKeeps(start: seq<Task>, a: seq<Task>, b: seq<Task>, stop: PlanStatus, rank: map<Id, nat>, i: nat)
    requires AfterCall(a, b, Some(stop), rank, i) && SameGraph(start, a)
    ensures SameGraph(start, b) && WellFormed(b, rank) && i < |b|
    ensures b[i].status in {NeedsApproval, Blocked, Failed}
    ensures stop == if b[i].status == NeedsApproval then PlanWaiting else PlanFailed
  {
    SameGraphOnwards(start, a, b);
  }

  /** The weight as a natural number, for termination. */
  ghost function WeightBound(ts: seq<Task>, rank: map<Id, nat>): nat
    requires WellFormed(ts, rank)
  {
    WeightCountsWork(ts);
    Weight(ts)
  }

  lemma WellFormedWeighs(ts: seq<Task>, rank: map<Id, nat>)
    requires WellFormed(ts, rank)
    ensures Weight(ts) >= 0
  {
    WeightCountsWork(ts);
  }

  lemma ReadyWeighs(ts: seq<Task>, rank: map<Id, nat>, i: nat)
    requires WellFormed(ts, rank) && i < |ts| && ts[i].status == Ready
    ensures Weight(ts) >= 1
  {
    WeightCountsWork(ts);
  }

  /** The status a task has while it is being attempted leaves no trace. */
  lemma SettleIgnoresStatus(a: seq<Task>, b: seq<Task>, i: nat, policy: Policy)
    requires i < |a| == |b| && a == b[i := b[i].(status := a[i].status)]
    ensures Settle(a, i, policy) == Settle(b, i, policy)
  {
    var t := Settle(b, i, policy).0[i];
    assert a[i := t] == b[i := t];
  }

  /** What the loop needs from one call that did not end the plan. */
  lemma CallKeepsGoing(start: seq<Task>, a: seq<Task>, b: seq<Task>, rank: map<Id, nat>, batch: seq<nat>, k: nat)
    requires k < |batch| && forall j | k <= j < |batch| :: batch[j] < |a| && a[batch[j]].status == Ready
    requires forall i, j | 0 <= i < j < |batch| :: batch[i] < batch[j]
    requires AfterCall(a, b, None, rank, batch[k]) && SameGraph(start, a)
    requires NoneStalled(start) ==> NoneStalled(a)
    ensures SameGraph(start, b) && WellFormed(b, rank) && Weight(b) < Weight(a)
    ensures NoneStalled(start) ==> NoneStalled(b)
    ensures forall j | k < j < |batch| :: batch[j] < |b| && b[batch[j]].status == Ready
  {
    hide WellFormed, Weight;
    SameGraphOnwards(start, a, b);
    if NoneStalled(start) {
      forall j | 0 <= j < |b|
        ensures !Stalled(b[j])
      {
        assert !Stalled(a[j]);
      }
    }
  }

  // ------------------------------------------------------------------ approvals

  function Decide(t: Task, approval: Id -> Approval): Task {
    if t.status != NeedsApproval || approval(t.id) == Undecided then t
    else t.(status := if approval(t.id) == Granted then Ready else Failed)
  }

  function Decided(ts: seq<Task>, approval: Id -> Approval): (r: seq<Task>)
    ensures |r| == |ts| && forall i | 0 <= i < |ts| :: r[i] == Decide(ts[i], approval)
  {
    seq(|ts|, i requires 0 <= i < |ts| => Decide(ts[i], approval))
  }

  /** A granted approval readies its task and a denied one fails it; every other task stays as it is. */
  ghost predicate DecidesAsAsked(ts: seq<Task>, us: seq<Task>, approval: Id -> Approval) {
    |us| == |ts| && forall i | 0 <= i < |ts| ::
      && us[i] == ts[i].(status := us[i].status)
      && (us[i].status != ts[i].status ==> ts[i].status == NeedsApproval)
      && (ts[i].status == NeedsApproval ==>
            match approval(ts[i].id)
            case Granted => us[i].status == Ready
            case Denied => us[i].status == Failed
            case Undecided => us[i].status == NeedsApproval)
  }

  predicate AnyDenied(ts: seq<Task>, approval: Id -> Approval) {
    exists i | 0 <= i < |ts| :: ts[i].status == NeedsApproval && approval(ts[i].id) == Denied
  }

  /** Nothing is stalled except tasks whose approval was granted. */
  predicate AllGranted(ts: seq<Task>, approval: Id -> Approval) {
    forall i | 0 <= i < |ts| && Stalled(ts[i]) :: ts[i].status == NeedsApproval && approval(ts[i].id) == Granted
  }

  lemma DecisionKeeps(ts: seq<Task>, rank: map<Id, nat>, approval: Id -> Approval)
    requires WellFormed(ts, rank)
    ensures SameGraph(ts, Decided(ts, approval)) && WellFormed(Decided(ts, approval), rank)
    ensures Weight(Decided(ts, approval)) == Weight(ts)
    ensures AllGranted(ts, approval) ==> NoneStalled(Decided(ts, approval))
  {
    SameGraphKeepsShape(ts, Decided(ts, approval), rank);
    WeightOfPromotion(ts, Decided(ts, approval));
  }

  // ------------------------------------------------------------------ the runtime

  /** The two things a run does to its table: a promotion pass, and the attempt of a task with its answer. */
  datatype Deed = Promoting | Trying(i: nat, reply: Reply, stop: Option<PlanStatus>)

  datatype Event = Event(before: seq<Task>, after: seq<Task>, deed: Deed)

  type History = seq<Event>

  /** The table when the `k`-th event happens, if what is told begins at event `n` with the table `start`. */
  function TableAt(h: History, n: nat, start: seq<Task>, k: nat): seq<Task>
    requires k <= |h|
  {
    if k <= n then start else h[k - 1].after
  }

  /** The task tried by event `k` was ready when the last promotion pass before it had ended. */
  ghost predicate ReadyAtPass(h: History, n: nat, k: nat)
    requires k < |h| && h[k].deed.Trying?
  {
    exists p :: n <= p < k && PassFor(h, p, k)
  }

  ghost predicate PassFor(h: History, p: nat, k: nat)
    requires p < k < |h| && h[k].deed.Trying?
  {
    && h[p].deed.Promoting?
    && (forall q | p < q < k :: h[q].deed.Trying?)
    && h[k].deed.i < |h[p].after| && h[p].after[h[k].deed.i].status == Ready
  }

  /** An attempt of a ready task that leaves behind what its answer asks for. */
  ghost predicate Attempted(e: Event) {
    && e.deed.Trying? && e.deed.i < |e.before| && e.before[e.deed.i].status == Ready
    && Acts(e.before, e.after, e.deed.stop, e.deed.i, e.deed.reply)
  }

  /** The events from `n` on lead from `start` to `end`: each begins where the one before it ended, passes promote as they
      should, and what is tried was made or left ready by the last pass and fares as it was answered. */
  ghost predicate Legal(h: History, n: nat, start: seq<Task>, end: seq<Task>) {
    && n <= |h| && end == TableAt(h, n, start, |h|)
    && forall k | n <= k < |h| ::
         && h[k].before == TableAt(h, n, start, k)
         && (h[k].deed.Promoting? ==> Promotes(h[k].before, h[k].after))
         && (h[k].deed.Trying? ==> Attempted(h[k]) && ReadyAtPass(h, n, k))
  }

  /** The events from `n` on are attempts from the batch. */
  ghost predicate Tried(h: History, n: nat, start: seq<Task>, end: seq<Task>, batch: seq<nat>) {
    && n <= |h| && end == TableAt(h, n, start, |h|)
    && forall k | n <= k < |h| :: h[k].before == TableAt(h, n, start, k) && Attempted(h[k]) && h[k].deed.i in batch
  }

  /** How many of the events from `n` on, up to `k`, are attempts that ended without an exception. */
  function Executed(h: History, n: nat, k: nat): nat
    requires k <= |h|
  {
    if k <= n then 0
    else Executed(h, n, k - 1) + if IsExecution(h[k - 1]) then 1 else 0
  }

  predicate IsExecution(e: Event) {
    e.deed.Trying? && e.deed.i < |e.after| && e.after[e.deed.i].status in {Completed, Pending}
  }

  lemma {:induction false} ExecutedInFront(h: History, g: History, n: nat, k: nat)
    requires k <= |h| <= |g| && g[..|h|] == h
    ensures Executed(g, n, k) == Executed(h, n, k)
    decreases k
  {
    hide IsExecution;
    if k > n {
      assert g[k - 1] == h[k - 1];
      ExecutedInFront(h, g, n, k - 1);
    }
  }

  lemma OneMoreEvent(h: History, n: nat, e: Event)
    requires n <= |h|
    ensures Executed(h + [e], n, |h| + 1) == Executed(h, n, |h|) + if IsExecution(e) then 1 else 0
  {
    hide IsExecution;
    ExecutedInFront(h, h + [e], n, |h|);
  }

  lemma {:induction false} ExecutedInTurn(h: History, n: nat, m: nat, k: nat)
    requires n <= m <= k <= |h|
    ensures Executed(h, n, k) == Executed(h, n, m) + Executed(h, m, k)
    decreases k
  {
    hide IsExecution;
    if k > m { ExecutedInTurn(h, n, m, k - 1); }
  }

  lemma NothingTold(h: History, start: seq<Task>, batch: seq<nat>)
    ensures Legal(h, |h|, start, start) && Tried(h, |h|, start, start, batch) && Executed(h, |h|, |h|) == 0
  {}

  lemma TriedNext(h: History, n: nat, start: seq<Task>, e: Event, batch: seq<nat>)
    requires Tried(h, n, start, e.before, batch) && Attempted(e) && e.deed.i in batch
    ensures Tried(h + [e], n, start, e.after, batch)
  {
    hide Attempted;
    assert forall k | 0 <= k < |h| :: (h + [e])[k] == h[k];
  }

  lemma PassBegins(h: History, n: nat, start: seq<Task>, e: Event)
    requires Legal(h, n, start, e.before) && e.deed.Promoting? && Promotes(e.before, e.after)
    ensures Legal(h + [e], n, start, e.after)
  {
    hide Promotes, Attempted, PassFor;
    var g := h + [e];
    forall k | n <= k < |h|
      ensures g[k] == h[k] && TableAt(g, n, start, k) == TableAt(h, n, start, k)
      ensures h[k].deed.Trying? ==> ReadyAtPass(g, n, k)
    {
      if h[k].deed.Trying? { StillReadyAtPass(h, g, n, k); }
    }
  }

  lemma StillReadyAtPass(h: History, g: History, n: nat, k: nat)
    requires k < |h| <= |g| && g[..|h|] == h && h[k].deed.Trying? && ReadyAtPass(h, n, k)
    ensures g[k] == h[k] && ReadyAtPass(g, n, k)
  {
    assert forall q | 0 <= q < |h| :: g[q] == h[q];
    var p :| n <= p < k && PassFor(h, p, k);
    assert PassFor(g, p, k);
  }

  lemma BatchIsLegal(h: History, g: History, n: nat, start: seq<Task>, mid: seq<Task>, end: seq<Task>, batch: seq<nat>)
    requires Legal(h, n, start, mid) && n < |h| && h[|h| - 1].deed.Promoting?
    requires forall i | i in batch :: i < |mid| && mid[i].status == Ready
    requires |h| <= |g| && g[..|h|] == h && Tried(g, |h|, mid, end, batch)
    ensures Legal(g, n, start, end)
  {
    hide Promotes, Attempted, PassFor;
    assert forall q | 0 <= q < |h| :: g[q] == h[q];
    forall k | n <= k < |g|
      ensures g[k].before == TableAt(g, n, start, k)
      ensures g[k].deed.Promoting? ==> Promotes(g[k].before, g[k].after)
      ensures g[k].deed.Trying? ==> Attempted(g[k]) && ReadyAtPass(g, n, k)
    {
      if k < |h| {
        if h[k].deed.Trying? { StillReadyAtPass(h, g, n, k); }
      } else {
        TriedIsTrying(g, |h|, mid, end, batch);
        assert PassFor(g, |h| - 1, k) by { LastPassIsFor(g, |h| - 1, k); }
      }
    }
  }

  /** A whole pass: its promotions and the attempts of its batch go on with what is told. */
  lemma PassIsLegal(h: History, g: History, n: nat, start: seq<Task>, e: Event, end: seq<Task>, batch: seq<nat>)
    requires Legal(h, n, start, e.before) && e.deed.Promoting? && Promotes(e.before, e.after)
    requires forall i | i in batch :: i < |e.after| && e.after[i].status == Ready
    requires |h| < |g| && g[..|h| + 1] == h + [e] && Tried(g, |h| + 1, e.after, end, batch)
    ensures Legal(g, n, start, end)
    ensures Executed(g, n, |g|) == Executed(h, n, |h|) + Executed(g, |h| + 1, |g|)
  {
    hide Legal, Promotes, Tried, Executed, IsExecution;
    LegalFrom(h, n, start, e.before);
    PassBegins(h, n, start, e);
    assert (h + [e])[|h|] == e && |h + [e]| == |h| + 1;
    BatchIsLegal(h + [e], g, n, start, e.after, end, batch);
    OneMoreEvent(h, n, e);
    assert !IsExecution(e) by { PassIsNoExecution(e); }
    ExecutedInFront(h + [e], g, n, |h| + 1);
    ExecutedInTurn(g, n, |h| + 1, |g|);
  }

  lemma PassIsNoExecution(e: Event)
    requires e.deed.Promoting?
    ensures !IsExecution(e)
  {}

  lemma LegalFrom(h: History, n: nat, start: seq<Task>, end: seq<Task>)
    requires Legal(h, n, start, end)
    ensures n <= |h|
  {}

  lemma TriedIsTrying(g: History, n: nat, start: seq<Task>, end: seq<Task>, batch: seq<nat>)
    requires Tried(g, n, start, end, batch)
    ensures forall k | n <= k < |g| :: g[k].deed.Trying?
  {}

  lemma LastPassIsFor(g: History, p: nat, k: nat)
    requires p < k < |g| && g[p].deed.Promoting? && forall q | p < q <= k :: g[q].deed.Trying?
    requires g[k].deed.i < |g[p].after| && g[p].after[g[k].deed.i].status == Ready
    ensures PassFor(g, p, k)
  {}

  lemma IdsAreUnique(ts: seq<Task>, rank: map<Id, nat>)
    requires WellFormed(ts, rank)
    ensures UniqueIds(ts)
  {}

  lemma BatchIsReady(ts: seq<Task>, batch: seq<nat>)
    requires batch == ReadyIndices(ts, |ts|)
    ensures forall i | i in batch :: i < |ts| && ts[i].status == Ready
  {}

  /** What a pass keeps of the plan. */
  lemma PassKeeps(start: seq<Task>, ts: seq<Task>, rank: map<Id, nat>)
    requires WellFormed(ts, rank) && SameGraph(start, ts)
    ensures WellFormed(Promoted(ts), rank) && SameGraph(start, Promoted(ts)) && UniqueIds(ts)
    ensures Weight(Promoted(ts)) == Weight(ts) && Weight(ts) >= 0
    ensures NoneStalled(ts) ==> NoneStalled(Promoted(ts))
  {
    hide WellFormed, SameGraph, Weight, NoneStalled, Promoted, UniqueIds;
    PromotionKeeps(ts, rank);
    WellFormedWeighs(ts, rank);
    SameGraphOnwards(start, ts, Promoted(ts));
    IdsAreUnique(ts, rank);
  }

  /** When nothing is ready, either everything is done or something is stalled. */
  lemma NothingReady(ts: seq<Task>, rank: map<Id, nat>)
    requires WellFormed(ts, rank) && ReadyIndices(Promoted(ts), |Promoted(ts)|) == []
    ensures NoneStalled(ts) ==> AllCompleted(Promoted(ts))
    ensures !NoneStalled(ts) ==> !NoneStalled(Promoted(ts))
  {
    hide WellFormed, NoneStalled, ReadyIndices, AllCompleted;
    if NoneStalled(ts) { NothingReadyMeansAllDone(ts, rank); } else { StallsStay(ts); }
  }

  class Runtime {
    var tasks: seq<Task>
    var status: PlanStatus
    /** How many executor and reviewer calls have been made. */
    var calls: nat
    /** The answer to the n-th call: any behaviour of executor and reviewer is one such function. */
    const replies: nat -> Reply
    ghost var history: History

    constructor (ts: seq<Task>, answers: nat -> Reply)
      ensures tasks == ts && calls == 0 && replies == answers && history == []
    {
      tasks, status, calls, replies := ts, PlanRunning, 0, answers;
      history := [];
    }

    /** Judged on the table as it was listed: pending tasks whose dependencies are done turn ready, or blocked if one broke. */
    method PromotePending()
      modifies this`tasks
      ensures tasks == Promoted(old(tasks))
    {
      var snapshot := tasks;
      for i := 0 to |snapshot|
        invariant |tasks| == |snapshot|
        invariant forall j | 0 <= j < i :: tasks[j] == Promote(snapshot, snapshot[j])
        invariant forall j | i <= j < |snapshot| :: tasks[j] == snapshot[j]
      {
        if snapshot[i].status == Pending {
          if DependencyBroken(snapshot, snapshot[i]) {
            tasks := tasks[i := tasks[i].(status := Blocked)];
          } else if DependenciesDone(snapshot, snapshot[i]) {
            tasks := tasks[i := tasks[i].(status := Ready)];
          }
        }
      }
    }

    method Runnable() returns (ready: seq<nat>)
      modifies this`tasks, this`history
      ensures tasks == Promoted(old(tasks)) && ready == ReadyIndices(tasks, |tasks|)
      ensures UniqueIds(old(tasks)) ==> Promotes(old(tasks), tasks)
      ensures history == old(history) + [Event(old(tasks), tasks, Promoting)]
    {
      hide Promotes, Promoted, UniqueIds;
      ghost var snapshot := tasks;
      PromotePending();
      ready := [];
      for i := 0 to |tasks|
        invariant ready == ReadyIndices(tasks, i)
      {
        if tasks[i].status == Ready { ready := ready + [i]; }
      }
      history := history + [Event(snapshot, tasks, Promoting)];
      if UniqueIds(snapshot) { PromotedExactlyWhen(snapshot); }
    }

    method HandleFailure(i: nat, policy: Policy) returns (stopped: bool)
      requires i < |tasks|
      modifies this`tasks, this`status
      ensures tasks == Settle(old(tasks), i, policy).0
      ensures stopped <==> Settle(old(tasks), i, policy).1.Some?
      ensures status == if stopped then Settle(old(tasks), i, policy).1.value else old(status)
      ensures i < |tasks| && tasks[i].status !in {Completed, Pending}
    {
      var current := tasks[i];
      if policy == Retryable && current.retryCount < current.maxRetries {
        tasks := tasks[i := current.(status := Ready, retryCount := current.retryCount + 1)];
        return false;
      }
      tasks := tasks[i := current.(status := FailureStatus(policy))];
      status := if FailureStatus(policy) == NeedsApproval then PlanWaiting else PlanFailed;
      stopped := true;
    }

    /** Attempt task `i`: call the executor or the reviewer once and act on the answer. */
    method Attempt(i: nat, ghost rank: map<Id, nat>) returns (stopped: bool, threw: bool)
      requires WellFormed(tasks, rank) && i < |tasks|
      modifies this
      ensures calls == old(calls) + 1
      ensures tasks == Answered(old(tasks), i, replies(old(calls))).0
      ensures stopped <==> Answered(old(tasks), i, replies(old(calls))).1.Some?
      ensures status == if stopped then Answered(old(tasks), i, replies(old(calls))).1.value else old(status)
      ensures stopped ==> threw
      ensures i < |tasks| && (threw <==> tasks[i].status !in {Completed, Pending})
      ensures Acts(old(tasks), tasks, if stopped then Some(status) else None, i, replies(old(calls)))
      ensures history == old(history)
                         + [Event(old(tasks), tasks, Trying(i, replies(old(calls)), if stopped then Some(status) else None))]
    {
      hide WellFormed, Answered, Acts;
      ghost var before, reply := tasks, replies(calls);
      AnsweredActs(before, rank, i, reply);
      stopped, threw := CallOnce(i);
      history := history + [Event(before, tasks, Trying(i, reply, if stopped then Some(status) else None))];
    }

    method CallOnce(i: nat) returns (stopped: bool, threw: bool)
      requires i < |tasks|
      modifies this`tasks, this`status, this`calls
      ensures calls == old(calls) + 1
      ensures tasks == Answered(old(tasks), i, replies(old(calls))).0
      ensures stopped <==> Answered(old(tasks), i, replies(old(calls))).1.Some?
      ensures status == if stopped then Answered(old(tasks), i, replies(old(calls))).1.value else old(status)
      ensures stopped ==> threw
      ensures i < |tasks| && (threw <==> tasks[i].status !in {Completed, Pending})
    {
      ghost var before := tasks;
      tasks := tasks[i := tasks[i].(status := Running)];
      var reply := replies(calls);
      calls := calls + 1;
      if reply.Threw? {
        SettleIgnoresStatus(before, tasks, i, PolicyOr(reply.policy, Retryable));
        stopped := HandleFailure(i, PolicyOr(reply.policy, Retryable));
        return stopped, true;
      }
      if reply.Done? || !tasks[i].verify {
        tasks := tasks[i := tasks[i].(status := Completed)];
        assert tasks == before[i := before[i].(status := Completed)];
        return false, false;
      }
      stopped, threw := Reject(i, reply.policy, before);
    }

    /** The reviewer said no: reopen the last dependency if it may still be retried, else fail the task. */
    method Reject(i: nat, policy: Option<Policy>, ghost before: seq<Task>) returns (stopped: bool, threw: bool)
      requires i < |tasks| == |before| && before[i].verify
      requires before == tasks[i := tasks[i].(status := before[i].status)]
      modifies this`tasks, this`status
      ensures tasks == Answered(before, i, Rejected(policy)).0
      ensures stopped <==> Answered(before, i, Rejected(policy)).1.Some?
      ensures status == if stopped then Answered(before, i, Rejected(policy)).1.value else old(status)
      ensures stopped ==> threw
      ensures i < |tasks| && (threw <==> tasks[i].status !in {Completed, Pending})
    {
      hide Settle, SameGraph, PolicyOr, Find;
      tasks := tasks[i := tasks[i].(status := Failed)];
      assert before == tasks[i := tasks[i].(status := before[i].status)];
      FindUnchangedBy(before, tasks);
      var last := LastDependency(tasks[i]);
      if last.Some? {
        var target := Find(tasks, last.value);
        if target.None? {
          SettleIgnoresStatus(before, tasks, i, Retryable);
          stopped := HandleFailure(i, Retryable);
          return stopped, true;
        }
        var k := target.value;
        if tasks[k].retryCount < tasks[k].maxRetries {
          tasks := tasks[k := tasks[k].(status := Ready, retryCount := tasks[k].retryCount + 1)];
          tasks := tasks[i := tasks[i].(status := Pending)];
          return false, false;
        }
      }
      SettleIgnoresStatus(before, tasks, i, PolicyOr(policy, NonRetryable));
      stopped := HandleFailure(i, PolicyOr(policy, NonRetryable));
      threw := true;
    }

    /** How a run may end other than by completing everything: paused before a ready task, or by a failed one. */
    ghost predicate EndedBy(named: nat, executed: nat, maxTasks: Option<nat>)
      reads this
    {
      && named < |tasks|
      && (status == PlanPaused ==> maxTasks == Some(executed) && tasks[named].status == Ready)
      && (status != PlanPaused ==>
            && tasks[named].status in {NeedsApproval, Blocked, Failed}
            && status == if tasks[named].status == NeedsApproval then PlanWaiting else PlanFailed)
    }

    /** One pass over the tasks that were ready. */
    method RunBatch(batch: seq<nat>, maxTasks: Option<nat>, before: nat, ghost rank: map<Id, nat>)
      returns (ended: bool, executed: nat, ghost named: nat)
      requires WellFormed(tasks, rank) && status == PlanRunning && batch != []
      requires forall j | 0 <= j < |batch| :: batch[j] < |tasks| && tasks[batch[j]].status == Ready
      requires forall i, j | 0 <= i < j < |batch| :: batch[i] < batch[j]
      requires maxTasks.Some? ==> before <= maxTasks.value
      modifies this
      ensures WellFormed(tasks, rank) && SameGraph(old(tasks), tasks)
      ensures |old(history)| <= |history| && history[..|old(history)|] == old(history)
      ensures Tried(history, |old(history)|, old(tasks), tasks, batch)
      ensures executed == before + Executed(history, |old(history)|, |history|)
      ensures maxTasks.Some? ==> executed <= maxTasks.value
      ensures calls <= old(calls) + Weight(old(tasks))
      ensures !ended ==> status == PlanRunning && Weight(tasks) < Weight(old(tasks))
      ensures ended ==> EndedBy(named, executed, maxTasks)
      ensures !ended || status == PlanPaused ==> calls + Weight(tasks) <= old(calls) + Weight(old(tasks))
      ensures (!ended || status == PlanPaused) && NoneStalled(old(tasks)) ==> NoneStalled(tasks)
    {
      hide WellFormed, SameGraph, NoneStalled, Weight, Answered, AfterCall, Acts, Tried, Executed;
      ghost var start := tasks;
      SameGraphRefl(tasks);
      NothingTold(history, tasks, batch);
      ended, executed, named := true, before, 0;
      for k := 0 to |batch|
        invariant WellFormed(tasks, rank) && SameGraph(start, tasks) && status == PlanRunning
        invariant |old(history)| <= |history| && history[..|old(history)|] == old(history)
        invariant Tried(history, |old(history)|, start, tasks, batch)
        invariant executed == before + Executed(history, |old(history)|, |history|)
        invariant calls + Weight(tasks) <= old(calls) + Weight(start)
        invariant NoneStalled(start) ==> NoneStalled(tasks)
        invariant maxTasks.Some? ==> executed <= maxTasks.value
        invariant if k == 0 then tasks == start else Weight(tasks) < Weight(start)
        invariant forall j | k <= j < |batch| :: batch[j] < |tasks| && tasks[batch[j]].status == Ready
      {
        var i := batch[k];
        named := i;
        ReadyWeighs(tasks, rank, i);
        if maxTasks.Some? && executed >= maxTasks.value {
          status := PlanPaused;
          return;
        }
        ghost var was, told := tasks, history;
        AnswerLowersWeight(was, rank, i, replies(calls));
        var stopped, threw := Attempt(i, rank);
        TriedNext(told, |old(history)|, start, history[|told|], batch);
        OneMoreEvent(told, |old(history)|, history[|told|]);
        if !threw { executed := executed + 1; }
        if stopped {
          StoppedKeeps(start, was, tasks, status, rank, i);
          return;
        }
        CallKeepsGoing(start, was, tasks, rank, batch, k);
      }
      WellFormedWeighs(tasks, rank);
      ended := false;
    }

    /**
     * Run the plan.  Whatever executor and reviewer answer, it ends completed, paused, or because of a
     * named task; at most U + 2R calls are made and no task is retried more often than allowed.  What it does is a legal
     * history from the first table to the last: in every pass a task turns ready exactly when its dependencies are
     * completed, nothing is tried that is not ready, and what is tried fares as it was answered.
     */
    method Run(maxTasks: Option<nat>, ghost rank: map<Id, nat>) returns (executed: nat, ghost named: nat)
      requires WellFormed(tasks, rank)
      modifies this
      ensures SameGraph(old(tasks), tasks) && WellFormed(tasks, rank)
      ensures calls <= old(calls) + Weight(old(tasks))
      ensures status == PlanCompleted ==> AllCompleted(tasks)
      ensures status == PlanRunning ==> !NoneStalled(old(tasks)) && !NoneStalled(tasks)
      ensures status !in {PlanCompleted, PlanRunning} ==> EndedBy(named, executed, maxTasks)
      ensures status == PlanPaused ==> calls + Weight(tasks) <= old(calls) + Weight(old(tasks))
      ensures status == PlanPaused && NoneStalled(old(tasks)) ==> NoneStalled(tasks)
      ensures maxTasks.Some? ==> executed <= maxTasks.value
      ensures |old(history)| < |history| && history[|old(history)|].deed.Promoting?
      ensures Legal(history, |old(history)|, old(tasks), tasks)
      ensures executed == Executed(history, |old(history)|, |history|)
    {
      hide WellFormed, SameGraph, NoneStalled, Weight, Promoted, ReadyIndices, AllCompleted, Promotes, UniqueIds, Legal, Tried, Executed;
      SameGraphRefl(tasks);
      status := PlanRunning;
      executed := 0;
      named := 0;
      ghost var start := tasks;
      NothingTold(history, tasks, []);
      while true
        invariant WellFormed(tasks, rank) && SameGraph(start, tasks) && status == PlanRunning
        invariant calls + Weight(tasks) <= old(calls) + Weight(start)
        invariant NoneStalled(start) ==> NoneStalled(tasks)
        invariant maxTasks.Some? ==> executed <= maxTasks.value
        invariant |old(history)| <= |history|
        invariant |old(history)| < |history| ==> history[|old(history)|].deed.Promoting?
        invariant Legal(history, |old(history)|, start, tasks)
        invariant executed == Executed(history, |old(history)|, |history|)
        decreases WeightBound(tasks, rank)
      {
        ghost var pass := tasks;
        PassKeeps(start, pass, rank);
        ghost var earlier := history;
        var runnable := Runnable();
        if |runnable| == 0 {
          NothingTold(history, tasks, runnable);
          PassIsLegal(earlier, history, |old(history)|, start, Event(pass, tasks, Promoting), tasks, runnable);
          NothingReady(pass, rank);
          break;
        }
        ghost var ready := tasks;
        var ended: bool;
        ended, executed, named := RunBatch(runnable, maxTasks, executed, rank);
        SameGraphOnwards(start, ready, tasks);
        BatchIsReady(ready, runnable);
        PassIsLegal(earlier, history, |old(history)|, start, Event(pass, ready, Promoting), tasks, runnable);
        if ended { return; }
      }
      if AllCompleted(tasks) { status := PlanCompleted; }
    }

    method ApplyDecisions(approval: Id -> Approval) returns (denied: bool)
      modifies this`tasks
      ensures tasks == Decided(old(tasks), approval)
      ensures DecidesAsAsked(old(tasks), tasks, approval)
      ensures denied <==> AnyDenied(old(tasks), approval)
    {
      var snapshot := tasks;
      denied := false;
      for i := 0 to |snapshot|
        invariant |tasks| == |snapshot|
        invariant forall j | 0 <= j < i :: tasks[j] == Decide(snapshot[j], approval)
        invariant forall j | i <= j < |snapshot| :: tasks[j] == snapshot[j]
        invariant denied <==> exists j | 0 <= j < i :: snapshot[j].status == NeedsApproval && approval(snapshot[j].id) == Denied
      {
        if snapshot[i].status == NeedsApproval {
          match approval(snapshot[i].id)
          case Granted => tasks := tasks[i := tasks[i].(status := Ready)];
          case Denied =>
            tasks := tasks[i := tasks[i].(status := Failed)];
            denied := true;
          case Undecided =>
        }
      }
    }

    /** Take up a plan again after its approvals were decided; one denial fails it without another call. */
    method Resume(approval: Id -> Approval, maxTasks: Option<nat>, ghost rank: map<Id, nat>)
      returns (executed: nat, ghost named: nat)
      requires WellFormed(tasks, rank)
      modifies this
      ensures SameGraph(old(tasks), tasks) && WellFormed(tasks, rank)
      ensures calls <= old(calls) + Weight(old(tasks))
      ensures AnyDenied(old(tasks), approval) ==>
                status == PlanFailed && calls == old(calls) && tasks == Decided(old(tasks), approval)
      ensures !AnyDenied(old(tasks), approval) && AllGranted(old(tasks), approval) ==> status != PlanRunning
      ensures status == PlanCompleted ==> AllCompleted(tasks)
      ensures DecidesAsAsked(old(tasks), Decided(old(tasks), approval), approval)
      ensures !AnyDenied(old(tasks), approval) ==> Legal(history, |old(history)|, Decided(old(tasks), approval), tasks)
    {
      hide WellFormed, SameGraph, NoneStalled, Weight, Decided, AllCompleted, AllGranted, AnyDenied, DecidesAsAsked, Legal;
      ghost var snapshot := tasks;
      DecisionKeeps(snapshot, rank, approval);
      var denied := ApplyDecisions(approval);
      if denied {
        WellFormedWeighs(snapshot, rank);
        status := PlanFailed;
        executed, named := 0, 0;
        return;
      }
      executed, named := Run(maxTasks, rank);
      SameGraphOnwards(snapshot, Decided(snapshot, approval), tasks);
    }
  }
}
