/** What a legal history of a run promises: no task is attempted before its dependencies succeeded (packages/planner/src/index.ts). */
module PlanHistory {
  import opened Strings
  import opened Planner

  /** Event `q` is an attempt of task `j` that completes it. */
  ghost predicate SucceedsAt(h: History, q: nat, j: nat) {
    q < |h| && h[q].deed.Trying? && h[q].deed.i == j && j < |h[q].after| && h[q].after[j].status == Completed
  }

  ghost predicate Succeeded(h: History, n: nat, k: nat, j: nat) {
    exists q :: n <= q < k && SucceedsAt(h, q, j)
  }

  ghost predicate DependencySucceeded(h: History, n: nat, k: nat, start: seq<Task>, d: Id) {
    exists m :: 0 <= m < |start| && start[m].id == d && Succeeded(h, n, k, m)
  }

  /** Every dependency of task `j` has been completed by an attempt before event `k`. */
  ghost predicate DependenciesSucceeded(h: History, n: nat, k: nat, start: seq<Task>, j: nat)
    requires j < |start|
  {
    forall d | d in start[j].dependencies :: DependencySucceeded(h, n, k, start, d)
  }

  /** What the table says of task `j` is borne out by the events before `k`. */
  ghost predicate GroundedAt(h: History, n: nat, k: nat, start: seq<Task>, j: nat, status: TaskStatus)
    requires j < |start|
  {
    && (status == Completed ==> Succeeded(h, n, k, j))
    && (status == Ready || Succeeded(h, n, k, j) ==> DependenciesSucceeded(h, n, k, start, j))
  }

  ghost predicate Grounded(h: History, n: nat, k: nat, start: seq<Task>, ts: seq<Task>) {
    SameGraph(start, ts) && forall j | 0 <= j < |start| :: GroundedAt(h, n, k, start, j, ts[j].status)
  }

  lemma SuccessStays(h: History, n: nat, k: nat, j: nat)
    ensures Succeeded(h, n, k + 1, j) <==> Succeeded(h, n, k, j) || (n <= k && SucceedsAt(h, k, j))
  {
    hide SucceedsAt;
  }

  lemma SuccessesStay(h: History, n: nat, k: nat, start: seq<Task>, j: nat)
    requires j < |start| && DependenciesSucceeded(h, n, k, start, j)
    ensures DependenciesSucceeded(h, n, k + 1, start, j)
  {
    hide Succeeded;
    forall m: nat ensures Succeeded(h, n, k, m) ==> Succeeded(h, n, k + 1, m) { SuccessStays(h, n, k, m); }
  }

  /** An event that leaves a task's claim as it was, or lowers it, keeps it borne out. */
  lemma StaysGrounded(h: History, n: nat, k: nat, start: seq<Task>, j: nat, was: TaskStatus, status: TaskStatus)
    requires j < |start| && GroundedAt(h, n, k, start, j, was)
    requires status == was || status !in {Ready, Completed}
             || (status == Ready && DependenciesSucceeded(h, n, k, start, j))
    requires !SucceedsAt(h, k, j)
    ensures GroundedAt(h, n, k + 1, start, j, status)
  {
    hide SucceedsAt, Succeeded, DependenciesSucceeded;
    SuccessStays(h, n, k, j);
    if DependenciesSucceeded(h, n, k, start, j) { SuccessesStay(h, n, k, start, j); }
  }

  lemma PassKeepsGrounded(h: History, n: nat, k: nat, start: seq<Task>)
    requires n <= k < |h| && h[k].deed.Promoting? && Promotes(h[k].before, h[k].after)
    requires Grounded(h, n, k, start, h[k].before)
    ensures Grounded(h, n, k + 1, start, h[k].after)
  {
    hide GroundedAt, DependenciesSucceeded;
    var ts, us := h[k].before, h[k].after;
    forall j | 0 <= j < |start|
      ensures us[j] == start[j].(status := us[j].status, retryCount := us[j].retryCount)
      ensures GroundedAt(h, n, k + 1, start, j, us[j].status)
    {
      assert PromotesOne(ts, ts[j], us[j]);
      if ts[j].status == Pending && us[j].status == Ready {
        PromotedSucceeded(h, n, k, start, ts, j);
      }
      StaysGrounded(h, n, k, start, j, ts[j].status, us[j].status);
    }
  }

  lemma PromotedSucceeded(h: History, n: nat, k: nat, start: seq<Task>, ts: seq<Task>, j: nat)
    requires Grounded(h, n, k, start, ts) && j < |start|
    requires forall d | d in ts[j].dependencies :: exists m | 0 <= m < |ts| :: ts[m].id == d && ts[m].status == Completed
    ensures DependenciesSucceeded(h, n, k, start, j)
  {
    hide Succeeded;
    forall d | d in start[j].dependencies
      ensures DependencySucceeded(h, n, k, start, d)
    {
      var m :| 0 <= m < |ts| && ts[m].id == d && ts[m].status == Completed;
      assert GroundedAt(h, n, k, start, m, ts[m].status) && start[m].id == d;
    }
  }

  /** One task changes and is not completed by it. */
  lemma ChangeKeepsGrounded(h: History, n: nat, k: nat, start: seq<Task>, t: Task)
    requires n <= k < |h| && h[k].deed.Trying? && h[k].deed.i < |h[k].before|
    requires var i := h[k].deed.i;
             && t == h[k].before[i].(status := t.status, retryCount := t.retryCount)
             && h[k].after == h[k].before[i := t]
    requires Grounded(h, n, k, start, h[k].before)
    requires h[k].before[h[k].deed.i].status == Ready
    ensures Grounded(h, n, k + 1, start, h[k].after)
  {
    hide GroundedAt, DependenciesSucceeded;
    var ts, us, i := h[k].before, h[k].after, h[k].deed.i;
    ReadyGrounded(h, n, k, start, ts, i);
    forall j | 0 <= j < |start|
      ensures us[j] == start[j].(status := us[j].status, retryCount := us[j].retryCount)
      ensures GroundedAt(h, n, k + 1, start, j, us[j].status)
    {
      if j == i && t.status == Completed {
        CompletionGrounded(h, n, k, start);
      } else {
        StaysGrounded(h, n, k, start, j, ts[j].status, us[j].status);
      }
    }
  }

  lemma ReadyGrounded(h: History, n: nat, k: nat, start: seq<Task>, ts: seq<Task>, i: nat)
    requires Grounded(h, n, k, start, ts) && i < |ts| && ts[i].status == Ready
    ensures i < |start| && DependenciesSucceeded(h, n, k, start, i)
  {
    assert GroundedAt(h, n, k, start, i, ts[i].status);
  }

  lemma CompletionGrounded(h: History, n: nat, k: nat, start: seq<Task>)
    requires n <= k < |h| && h[k].deed.Trying? && h[k].deed.i < |start| && SucceedsAt(h, k, h[k].deed.i)
    requires DependenciesSucceeded(h, n, k, start, h[k].deed.i)
    ensures GroundedAt(h, n, k + 1, start, h[k].deed.i, Completed)
  {
    hide SucceedsAt, DependenciesSucceeded;
    SuccessStays(h, n, k, h[k].deed.i);
    SuccessesStay(h, n, k, start, h[k].deed.i);
  }

  lemma AttemptKeepsGrounded(h: History, n: nat, k: nat, start: seq<Task>)
    requires n <= k < |h| && Attempted(h[k]) && UniqueIds(start)
    requires Grounded(h, n, k, start, h[k].before)
    ensures Grounded(h, n, k + 1, start, h[k].after)
  {
    hide Grounded, GroundedAt, DependenciesSucceeded, SentBack;
    var ts, us, i := h[k].before, h[k].after, h[k].deed.i;
    if target :| 0 <= target < |ts| && ts[i].dependencies != [] && ts[target].id == ts[i].dependencies[|ts[i].dependencies| - 1]
                 && SentBack(ts, us, target, i) {
      SendingBackKeepsGrounded(h, n, k, start, target);
    } else {
      ChangeKeepsGrounded(h, n, k, start, us[i]);
    }
  }

  lemma SendingBackKeepsGrounded(h: History, n: nat, k: nat, start: seq<Task>, target: nat)
    requires n <= k < |h| && h[k].deed.Trying? && h[k].deed.i < |h[k].before| && UniqueIds(start)
    requires Grounded(h, n, k, start, h[k].before) && h[k].before[h[k].deed.i].status == Ready
    requires SentBack(h[k].before, h[k].after, target, h[k].deed.i)
    requires h[k].before[target].id in h[k].before[h[k].deed.i].dependencies
    ensures Grounded(h, n, k + 1, start, h[k].after)
  {
    hide Succeeded, DependenciesSucceeded;
    var ts, us, i := h[k].before, h[k].after, h[k].deed.i;
    forall j | 0 <= j < |start|
      ensures us[j] == start[j].(status := us[j].status, retryCount := us[j].retryCount)
      ensures GroundedAt(h, n, k + 1, start, j, us[j].status)
    {
      assert GroundedAt(h, n, k, start, j, ts[j].status);
      if j == target { ReopenedSucceeded(h, n, k, start, target, i); }
      StaysGrounded(h, n, k, start, j, ts[j].status, us[j].status);
    }
  }

  /** What a rejected verification sends back has itself been tried, and so have its dependencies. */
  lemma ReopenedSucceeded(h: History, n: nat, k: nat, start: seq<Task>, target: nat, i: nat)
    requires UniqueIds(start) && target < |start| && i < |start| && start[target].id in start[i].dependencies
    requires DependenciesSucceeded(h, n, k, start, i)
    requires Succeeded(h, n, k, target) ==> DependenciesSucceeded(h, n, k, start, target)
    ensures DependenciesSucceeded(h, n, k, start, target)
  {
    hide Succeeded;
    assert DependencySucceeded(h, n, k, start, start[target].id);
    var m :| 0 <= m < |start| && start[m].id == start[target].id && Succeeded(h, n, k, m);
    assert m == target;
  }

  /** A plan of which nothing is ready or completed yet. */
  predicate Unstarted(ts: seq<Task>) {
    forall j | 0 <= j < |ts| :: ts[j].status !in {Ready, Completed}
  }

  lemma LegalAt(h: History, n: nat, start: seq<Task>, end: seq<Task>, k: nat)
    requires Legal(h, n, start, end) && n <= k < |h|
    ensures h[k].before == TableAt(h, n, start, k) && h[k].after == TableAt(h, n, start, k + 1)
    ensures h[k].deed.Promoting? ==> Promotes(h[k].before, h[k].after)
    ensures h[k].deed.Trying? ==> Attempted(h[k])
  {
    hide Promotes, Attempted;
  }

  lemma {:induction false} GroundedThroughout(h: History, n: nat, start: seq<Task>, end: seq<Task>, k: nat)
    requires Legal(h, n, start, end) && Unstarted(start) && UniqueIds(start) && n <= k <= |h|
    ensures Grounded(h, n, k, start, TableAt(h, n, start, k))
    decreases k
  {
    hide Legal, Grounded, Promotes, Attempted;
    if k == n {
      GroundedAtFirst(h, n, start);
    } else {
      GroundedThroughout(h, n, start, end, k - 1);
      LegalAt(h, n, start, end, k - 1);
      match h[k - 1].deed
      case Promoting => PassKeepsGrounded(h, n, k - 1, start);
      case Trying(_, _, _) => AttemptKeepsGrounded(h, n, k - 1, start);
    }
  }

  lemma GroundedAtFirst(h: History, n: nat, start: seq<Task>)
    requires Unstarted(start)
    ensures Grounded(h, n, n, start, start)
  {}

  /**
   * Whatever executor and reviewer answer: when a task of a plan is attempted, an earlier attempt has completed each of its
   * dependencies.
   */
  lemma DependenciesSucceedFirst(h: History, n: nat, start: seq<Task>, end: seq<Task>, k: nat)
    requires Legal(h, n, start, end) && Unstarted(start) && UniqueIds(start)
    requires n <= k < |h| && h[k].deed.Trying?
    ensures h[k].deed.i < |start| && DependenciesSucceeded(h, n, k, start, h[k].deed.i)
  {
    hide DependenciesSucceeded, Acts, Legal, Grounded;
    GroundedThroughout(h, n, start, end, k);
    LegalAt(h, n, start, end, k);
    ReadyGrounded(h, n, k, start, h[k].before, h[k].deed.i);
  }
}
