/** The in-memory lease manager (packages/remote/src/index.ts:71-78). */
module Leases {
  import opened Strings

  type Id = Str

  datatype LeaseToken = LeaseToken(leaseId: Str, workerId: Id, fencingToken: nat, expiresAt: int)

  datatype State = State(nextFence: nat, active: map<Id, LeaseToken>)

  const FRESH := State(0, map[])

  function LeaseId(jobId: Id, workerId: Id, fence: nat): Str {
    jobId + [COLON] + workerId + [COLON] + Decimal(fence)
  }

  /** Two tokens stand for the same grant. */
  predicate SameGrant(a: LeaseToken, b: LeaseToken) {
    a.leaseId == b.leaseId && a.workerId == b.workerId && a.fencingToken == b.fencingToken
  }

  /** Whether `token` is the job's current lease and that lease is in force at `now`. */
  predicate Validates(s: State, jobId: Id, token: LeaseToken, now: int) {
    jobId in s.active && SameGrant(s.active[jobId], token) && s.active[jobId].expiresAt > now
  }

  /** The new state and the token, or nothing while a lease is in force. */
  function Acquire(s: State, jobId: Id, workerId: Id, ttl: int, now: int): Option<(State, LeaseToken)> {
    if jobId in s.active && s.active[jobId].expiresAt > now then None
    else
      var fence := s.nextFence + 1;
      var token := LeaseToken(LeaseId(jobId, workerId, fence), workerId, fence, now + ttl);
      Some((State(fence, s.active[jobId := token]), token))
  }

  function Renew(s: State, jobId: Id, token: LeaseToken, ttl: int, now: int): Option<(State, LeaseToken)> {
    if !Validates(s, jobId, token, now) then None
    else
      var renewed := s.active[jobId].(expiresAt := now + ttl);
      Some((s.(active := s.active[jobId := renewed]), renewed))
  }

  function Release(s: State, jobId: Id, token: LeaseToken, now: int): State {
    if !Validates(s, jobId, token, now) then s else s.(active := s.active - {jobId})
  }

  datatype Step =
    | DoAcquire(jobId: Id, workerId: Id, ttl: int, now: int)
    | DoRenew(jobId: Id, token: LeaseToken, ttl: int, now: int)
    | DoRelease(jobId: Id, token: LeaseToken, now: int)

  function Apply(s: State, e: Step): State {
    match e
    case DoAcquire(jobId, workerId, ttl, now) =>
      (match Acquire(s, jobId, workerId, ttl, now) case None => s case Some(r) => r.0)
    case DoRenew(jobId, token, ttl, now) =>
      (match Renew(s, jobId, token, ttl, now) case None => s case Some(r) => r.0)
    case DoRelease(jobId, token, now) => Release(s, jobId, token, now)
  }

  function Run(s: State, es: seq<Step>): State
    decreases |es|
  {
    if es == [] then s else Run(Apply(s, es[0]), es[1..])
  }

  /** Every current lease carries a token that was handed out, and no two jobs carry the same. */
  ghost predicate Inv(s: State) {
    && (forall j | j in s.active :: 1 <= s.active[j].fencingToken <= s.nextFence)
    && (forall j, k | j in s.active && k in s.active && s.active[j].fencingToken == s.active[k].fencingToken :: j == k)
  }

  /** `token` was handed out, and the job's current lease is not it. */
  ghost predicate Lost(s: State, jobId: Id, token: LeaseToken) {
    token.fencingToken <= s.nextFence && (jobId in s.active ==> s.active[jobId].fencingToken != token.fencingToken)
  }

  lemma StepKeeps(s: State, e: Step, jobId: Id, token: LeaseToken)
    requires Inv(s)
    ensures Inv(Apply(s, e)) && s.nextFence <= Apply(s, e).nextFence
    ensures Lost(s, jobId, token) ==> Lost(Apply(s, e), jobId, token)
  {
    hide LeaseId;
  }

  lemma {:induction false} RunKeeps(s: State, es: seq<Step>, jobId: Id, token: LeaseToken)
    requires Inv(s)
    ensures Inv(Run(s, es)) && s.nextFence <= Run(s, es).nextFence
    ensures Lost(s, jobId, token) ==> Lost(Run(s, es), jobId, token)
    decreases |es|
  {
    hide Inv, Lost, Apply;
    if es != [] {
      StepKeeps(s, es[0], jobId, token);
      RunKeeps(Apply(s, es[0]), es[1..], jobId, token);
    }
  }

  /** A job's lease is granted only when no token of that job is in force any more, then or later. */
  lemma GrantsDoNotOverlap(s: State, jobId: Id, workerId: Id, ttl: int, now: int, token: LeaseToken, later: int)
    requires Acquire(s, jobId, workerId, ttl, now).Some? && now <= later
    ensures !Validates(s, jobId, token, later)
  {}

  /** In every run at most one grant of a job validates, and a grant validates for one job only, whatever the clocks say. */
  lemma OneGrantAtATime(es: seq<Step>, j: Id, k: Id, a: LeaseToken, b: LeaseToken, now: int, later: int)
    requires Validates(Run(FRESH, es), j, a, now) && Validates(Run(FRESH, es), k, b, later)
    ensures j == k <==> SameGrant(a, b)
  {
    hide Run;
    RunKeeps(FRESH, es, j, a);
  }

  /** A grant is the only one that validates, and every token handed out before it is lost for ever: no later run makes
      it valid again, whatever the clock says. */
  lemma SupersededForGood(s: State, jobId: Id, workerId: Id, ttl: int, now: int, older: LeaseToken, es: seq<Step>, later: int)
    requires Inv(s) && older.fencingToken <= s.nextFence
    requires Acquire(s, jobId, workerId, ttl, now).Some?
    ensures var (after, token) := Acquire(s, jobId, workerId, ttl, now).value;
            && (ttl > 0 ==> Validates(after, jobId, token, now))
            && token.fencingToken > older.fencingToken
            && !Validates(Run(after, es), jobId, older, later)
  {
    hide LeaseId, Run;
    var (after, token) := Acquire(s, jobId, workerId, ttl, now).value;
    StepKeeps(s, DoAcquire(jobId, workerId, ttl, now), jobId, older);
    assert Apply(s, DoAcquire(jobId, workerId, ttl, now)) == after;
    RunKeeps(after, es, jobId, older);
  }

  /** A released lease stays released. */
  lemma ReleasedForGood(s: State, jobId: Id, token: LeaseToken, now: int, es: seq<Step>, later: int)
    requires Inv(s) && Validates(s, jobId, token, now)
    ensures !Validates(Run(Release(s, jobId, token, now), es), jobId, token, later)
  {
    hide Run;
    var after := Release(s, jobId, token, now);
    StepKeeps(s, DoRelease(jobId, token, now), jobId, token);
    assert Apply(s, DoRelease(jobId, token, now)) == after;
    RunKeeps(after, es, jobId, token);
  }

  // ------------------------------------------------------------------ how long a lease is in force

  /** A job can be leased at exactly the times at which no token of it is valid. */
  lemma AcquirableExactlyWhen(s: State, jobId: Id, workerId: Id, ttl: int, now: int)
    ensures Acquire(s, jobId, workerId, ttl, now).Some? <==> forall token :: !Validates(s, jobId, token, now)
  {
    if jobId in s.active && s.active[jobId].expiresAt > now {
      assert Validates(s, jobId, s.active[jobId], now);
    }
  }

  /** Nobody renews or releases the job, and nobody asks for it from `deadline` on. */
  ghost predicate Undisturbed(es: seq<Step>, jobId: Id, deadline: int) {
    forall i | 0 <= i < |es| && es[i].jobId == jobId :: es[i].DoAcquire? && es[i].now < deadline
  }

  lemma {:induction false} HeldThroughout(s: State, es: seq<Step>, jobId: Id)
    requires jobId in s.active && Undisturbed(es, jobId, s.active[jobId].expiresAt)
    ensures jobId in Run(s, es).active && Run(s, es).active[jobId] == s.active[jobId]
    decreases |es|
  {
    hide LeaseId;
    if es != [] {
      var after := Apply(s, es[0]);
      assert jobId in after.active && after.active[jobId] == s.active[jobId];
      hide Apply;
      HeldThroughout(after, es[1..], jobId);
    }
  }

  /** A lease granted at `now` for `ttl` is valid exactly before `now + ttl`, whatever happens to other jobs and whoever asks
      for this one meanwhile. */
  lemma GrantLastsExactly(s: State, jobId: Id, workerId: Id, ttl: int, now: int, es: seq<Step>, at: int)
    requires Acquire(s, jobId, workerId, ttl, now).Some? && Undisturbed(es, jobId, now + ttl)
    ensures var (after, token) := Acquire(s, jobId, workerId, ttl, now).value;
            token.workerId == workerId && (Validates(Run(after, es), jobId, token, at) <==> at < now + ttl)
  {
    hide LeaseId, Run;
    HeldThroughout(Acquire(s, jobId, workerId, ttl, now).value.0, es, jobId);
  }

  /** Only a valid lease can be renewed, and then it stays the same grant and is valid exactly before the new deadline. */
  lemma RenewalLastsExactly(s: State, jobId: Id, token: LeaseToken, ttl: int, now: int, es: seq<Step>, at: int)
    requires Undisturbed(es, jobId, now + ttl)
    ensures Renew(s, jobId, token, ttl, now).Some? <==> Validates(s, jobId, token, now)
    ensures Validates(s, jobId, token, now) ==>
              (Validates(Run(Renew(s, jobId, token, ttl, now).value.0, es), jobId, token, at) <==> at < now + ttl)
  {
    hide Run;
    if Validates(s, jobId, token, now) { HeldThroughout(Renew(s, jobId, token, ttl, now).value.0, es, jobId); }
  }

  /** A holder's release frees the job at once; nobody else's does anything. */
  lemma ReleaseFreesExactlyWhen(s: State, jobId: Id, token: LeaseToken, now: int, workerId: Id, ttl: int, later: int)
    requires jobId in s.active && later < s.active[jobId].expiresAt
    ensures Acquire(Release(s, jobId, token, now), jobId, workerId, ttl, later).Some? <==> Validates(s, jobId, token, now)
  {}

  class LeaseManager {
    var nextFence: nat
    var active: map<Id, LeaseToken>

    function View(): State
      reads this
    {
      State(nextFence, active)
    }

    constructor ()
      ensures View() == FRESH
    {
      nextFence, active := 0, map[];
    }

    method AcquireLease(jobId: Id, workerId: Id, ttlMs: int, now: int) returns (r: Option<LeaseToken>)
      modifies this
      ensures match Acquire(old(View()), jobId, workerId, ttlMs, now)
              case None => r == None && View() == old(View())
              case Some(granted) => r == Some(granted.1) && View() == granted.0
    {
      if jobId in active && active[jobId].expiresAt > now {
        return None;
      }
      nextFence := nextFence + 1;
      var token := LeaseToken(LeaseId(jobId, workerId, nextFence), workerId, nextFence, now + ttlMs);
      active := active[jobId := token];
      r := Some(token);
    }

    method RenewLease(jobId: Id, token: LeaseToken, ttlMs: int, now: int) returns (r: Option<LeaseToken>)
      modifies this
      ensures match Renew(old(View()), jobId, token, ttlMs, now)
              case None => r == None && View() == old(View())
              case Some(renewed) => r == Some(renewed.1) && View() == renewed.0
    {
      if jobId !in active || !Validates(View(), jobId, token, now) {
        return None;
      }
      var renewed := active[jobId].(expiresAt := now + ttlMs);
      active := active[jobId := renewed];
      r := Some(renewed);
    }

    method ReleaseLease(jobId: Id, token: LeaseToken, now: int) returns (released: bool)
      modifies this
      ensures View() == Release(old(View()), jobId, token, now)
      ensures released == Validates(old(View()), jobId, token, now)
    {
      released := jobId in active && Validates(View(), jobId, token, now);
      if released {
        active := active - {jobId};
      }
    }

    method Validate(jobId: Id, token: LeaseToken, now: int) returns (valid: bool)
      ensures valid == Validates(View(), jobId, token, now)
    {
      if jobId !in active { return false; }
      var current := active[jobId];
      valid := current.leaseId == token.leaseId && current.workerId == token.workerId &&
               current.fencingToken == token.fencingToken && current.expiresAt > now;
    }
  }
}
