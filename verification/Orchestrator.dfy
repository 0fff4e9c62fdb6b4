/** From a proposed plan to a finished run: validation, the stored tasks, and execution (packages/adaptive/src/index.ts). */
module Orchestrator {
  import opened Strings
  import V = PlanValidation
  import P = Planner
  import PH = PlanHistory

  type Id = string

  function TaskId(planId: Id, id: Id): Id {
    "task_" + planId + "_" + id
  }

  lemma TaskIdInjective(planId: Id, a: Id, b: Id)
    ensures TaskId(planId, a) == TaskId(planId, b) ==> a == b
  {
    var n := |"task_" + planId + "_"|;
    assert TaskId(planId, a)[n..] == a && TaskId(planId, b)[n..] == b;
  }

  /** Dependencies without a task of their own are dropped. */
  function MapDependencies(tasks: seq<V.PlannedTask>, planId: Id, deps: seq<Id>): (r: seq<Id>)
    ensures forall d | d in r :: exists x :: x in deps && d == TaskId(planId, x) && exists u :: u in tasks && u.id == x
  {
    if deps == [] then []
    else
      var rest := MapDependencies(tasks, planId, deps[1..]);
      if exists u | u in tasks :: u.id == deps[0] then [TaskId(planId, deps[0])] + rest else rest
  }

  /** Nothing else is dropped, and nothing is added. */
  lemma {:induction false} MappedExactly(tasks: seq<V.PlannedTask>, planId: Id, deps: seq<Id>, x: Id)
    ensures TaskId(planId, x) in MapDependencies(tasks, planId, deps) <==> x in deps && exists u :: u in tasks && u.id == x
    decreases |deps|
  {
    hide TaskId;
    if deps != [] {
      MappedExactly(tasks, planId, deps[1..], x);
      TaskIdInjective(planId, x, deps[0]);
    }
  }

  function StoredTasks(tasks: seq<V.PlannedTask>, planId: Id): (r: seq<P.Task>)
    ensures |r| == |tasks|
    ensures forall i | 0 <= i < |tasks| ::
              r[i] == P.Task(TaskId(planId, tasks[i].id), tasks[i].hasVerification, P.Pending,
                             MapDependencies(tasks, planId, tasks[i].dependencies), 0, 2)
  {
    seq(|tasks|, i requires 0 <= i < |tasks| =>
      P.Task(TaskId(planId, tasks[i].id), tasks[i].hasVerification, P.Pending,
             MapDependencies(tasks, planId, tasks[i].dependencies), 0, 2))
  }

  /** The rank of each stored task: its place in a dependencies-first order of the proposal. */
  ghost function RankMap(tasks: seq<V.PlannedTask>, planId: Id, order: seq<Id>): (rank: map<Id, nat>)
    requires forall t | t in tasks :: t.id in order
    ensures forall t | t in tasks :: TaskId(planId, t.id) in rank && rank[TaskId(planId, t.id)] == V.Rank(order, t.id)
  {
    if tasks == [] then map[]
    else
      var n := |tasks| - 1;
      assert forall t | t in tasks[..n] :: t in tasks;
      var rest := RankMap(tasks[..n], planId, order);
      var rank := rest[TaskId(planId, tasks[n].id) := V.Rank(order, tasks[n].id)];
      assert forall t | t in tasks :: TaskId(planId, t.id) in rank && rank[TaskId(planId, t.id)] == V.Rank(order, t.id) by {
        forall t | t in tasks
          ensures TaskId(planId, t.id) in rank && rank[TaskId(planId, t.id)] == V.Rank(order, t.id)
        {
          TaskIdInjective(planId, t.id, tasks[n].id);
          assert tasks == tasks[..n] + [tasks[n]];
        }
      }
      rank
  }

  lemma StoredIdsAreUnique(tasks: seq<V.PlannedTask>, planId: Id)
    requires V.UniqueIds(tasks)
    ensures P.UniqueIds(StoredTasks(tasks, planId))
  {
    forall i, j | 0 <= i < j < |tasks|
      ensures StoredTasks(tasks, planId)[i].id != StoredTasks(tasks, planId)[j].id
    {
      TaskIdInjective(planId, tasks[i].id, tasks[j].id);
    }
  }

  lemma StoredDependency(tasks: seq<V.PlannedTask>, planId: Id, order: seq<Id>, i: nat, d: Id)
    requires V.UniqueIds(tasks) && forall t | t in tasks :: t.id in order
    requires V.Topological(V.GraphOf(tasks), order)
    requires i < |tasks| && d in MapDependencies(tasks, planId, tasks[i].dependencies)
    ensures exists k :: 0 <= k < |tasks| && d == TaskId(planId, tasks[k].id) && V.Rank(order, tasks[k].id) < V.Rank(order, tasks[i].id)
  {
    hide V.Topological, V.GraphOf, MapDependencies;
    V.GraphDependencies(tasks);
    assert tasks[i] in tasks;
    var x :| x in tasks[i].dependencies && d == TaskId(planId, x) && exists u :: u in tasks && u.id == x;
    var u :| u in tasks && u.id == x;
    var k :| 0 <= k < |tasks| && tasks[k] == u;
    V.DependencyRanksLower(V.GraphOf(tasks), order, tasks[i].id, x);
    assert d == TaskId(planId, tasks[k].id);
  }

  /** A plan that passes validation satisfies everything the runtime needs, and costs at most five calls a task. */
  lemma AcceptedPlansCanRun(tasks: seq<V.PlannedTask>, planId: Id, order: seq<Id>)
    requires V.UniqueIds(tasks) && forall t | t in tasks :: t.id in order
    requires V.Topological(V.GraphOf(tasks), order)
    ensures P.WellFormed(StoredTasks(tasks, planId), RankMap(tasks, planId, order))
    ensures P.NoneStalled(StoredTasks(tasks, planId))
    ensures P.Weight(StoredTasks(tasks, planId)) == 5 * |tasks|
  {
    hide V.Topological, V.GraphOf, V.UniqueIds, V.Rank, RankMap, MapDependencies, StoredTasks, TaskId, P.UniqueIds;
    var ts, rank := StoredTasks(tasks, planId), RankMap(tasks, planId, order);
    StoredIdsAreUnique(tasks, planId);
    assert forall i | 0 <= i < |ts| :: tasks[i] in tasks;
    forall i, d | 0 <= i < |ts| && d in ts[i].dependencies
      ensures P.Find(ts, d).Some? && d in rank && rank[d] < rank[ts[i].id]
    {
      StoredDependency(tasks, planId, order, i, d);
      var k :| 0 <= k < |tasks| && d == TaskId(planId, tasks[k].id) && V.Rank(order, tasks[k].id) < V.Rank(order, tasks[i].id);
      assert ts[k].id == d;
    }
    FreshWeight(ts);
  }

  lemma {:induction false} FreshWeight(ts: seq<P.Task>)
    requires forall i | 0 <= i < |ts| :: ts[i].status == P.Pending && ts[i].retryCount == 0 && ts[i].maxRetries == 2
    ensures P.Weight(ts) == 5 * |ts|
    decreases |ts|
  {
    if ts != [] { FreshWeight(ts[1..]); }
  }

  /** The deterministic plan used when the model's proposal is rejected: inspect, execute, verify. */
  const FALLBACK: seq<V.PlannedTask> := [
    V.PlannedTask("inspect", Some("researcher"), [], true),
    V.PlannedTask("execute", Some("coder"), ["inspect"], false),
    V.PlannedTask("verify", Some("tester"), ["execute"], true)
  ]

  lemma FallbackIsOrdered()
    ensures |FALLBACK| == 3 && FALLBACK[0].dependencies == []
    ensures FALLBACK[1].dependencies == [FALLBACK[0].id] && FALLBACK[2].dependencies == [FALLBACK[1].id]
    ensures !FALLBACK[1].hasVerification && FALLBACK[0].hasVerification && FALLBACK[2].hasVerification
    ensures V.UniqueIds(FALLBACK) && V.DependenciesExist(FALLBACK)
    ensures V.Topological(V.GraphOf(FALLBACK), ["inspect", "execute", "verify"])
    ensures forall t | t in FALLBACK :: t.id in ["inspect", "execute", "verify"]
  {
    assert FALLBACK[0].id[0] == 'i' && FALLBACK[1].id[0] == 'e' && FALLBACK[2].id[0] == 'v';
    ChainIsOrdered(FALLBACK[0], FALLBACK[1], FALLBACK[2]);
  }

  lemma ChainIsOrdered(a: V.PlannedTask, b: V.PlannedTask, c: V.PlannedTask)
    requires a.id != b.id && b.id != c.id && a.id != c.id
    requires a.dependencies == [] && b.dependencies == [a.id] && c.dependencies == [b.id]
    ensures V.UniqueIds([a, b, c])
    ensures V.Topological(V.GraphOf([a, b, c]), [a.id, b.id, c.id])
  {
    GraphOfThree(a, b, c);
    hide V.GraphOf;
    var g, order := V.GraphOf([a, b, c]), [a.id, b.id, c.id];
    forall k, d | 0 <= k < 3 && d in V.Deps(g, order[k])
      ensures d in order[..k]
    {
      if k == 1 {
        assert order[..k][0] == a.id;
      } else if k == 2 {
        assert order[..k][1] == b.id;
      }
    }
  }

  lemma GraphOfThree(a: V.PlannedTask, b: V.PlannedTask, c: V.PlannedTask)
    ensures V.GraphOf([a, b, c]) == map[a.id := a.dependencies][b.id := b.dependencies][c.id := c.dependencies]
  {
    assert [a, b, c][..2] == [a, b] && [a, b][..1] == [a];
    var none: seq<V.PlannedTask> := [a][..0];
    assert V.GraphOf(none) == map[];
    assert V.GraphOf([a]) == map[a.id := a.dependencies];
    assert V.GraphOf([a, b]) == map[a.id := a.dependencies][b.id := b.dependencies];
  }

  /** When a task is attempted, an earlier attempt has completed each proposed dependency. */
  ghost predicate AttemptsFollowDependencies(chosen: seq<V.PlannedTask>, h: P.History) {
    forall k | 0 <= k < |h| && h[k].deed.Trying? ::
      && h[k].deed.i < |chosen|
      && forall x | x in chosen[h[k].deed.i].dependencies :: CompletedBefore(chosen, h, k, x)
  }

  ghost predicate CompletedBefore(chosen: seq<V.PlannedTask>, h: P.History, k: nat, x: Id) {
    exists m :: 0 <= m < |chosen| && chosen[m].id == x && PH.Succeeded(h, 0, k, m)
  }

  lemma HistoryFollowsDependencies(chosen: seq<V.PlannedTask>, planId: Id, h: P.History, end: seq<P.Task>)
    requires V.UniqueIds(chosen) && V.DependenciesExist(chosen)
    requires P.Legal(h, 0, StoredTasks(chosen, planId), end)
    ensures AttemptsFollowDependencies(chosen, h)
  {
    hide P.Legal, PH.Succeeded, TaskId, V.UniqueIds, V.DependenciesExist, CompletedBefore, MapDependencies;
    var start := StoredTasks(chosen, planId);
    StoredIdsAreUnique(chosen, planId);
    forall k | 0 <= k < |h| && h[k].deed.Trying?
      ensures h[k].deed.i < |chosen|
      ensures forall x | x in chosen[h[k].deed.i].dependencies :: CompletedBefore(chosen, h, k, x)
    {
      PH.DependenciesSucceedFirst(h, 0, start, end, k);
      forall x | x in chosen[h[k].deed.i].dependencies
        ensures CompletedBefore(chosen, h, k, x)
      {
        ProposedSucceeded(chosen, planId, h, k, h[k].deed.i, x);
      }
    }
  }

  lemma ProposedSucceeded(chosen: seq<V.PlannedTask>, planId: Id, h: P.History, k: nat, i: nat, x: Id)
    requires V.DependenciesExist(chosen) && i < |chosen| && x in chosen[i].dependencies
    requires PH.DependenciesSucceeded(h, 0, k, StoredTasks(chosen, planId), i)
    ensures CompletedBefore(chosen, h, k, x)
  {
    hide PH.Succeeded, TaskId, MapDependencies;
    var start := StoredTasks(chosen, planId);
    assert chosen[i] in chosen;
    MappedExactly(chosen, planId, chosen[i].dependencies, x);
    assert PH.DependencySucceeded(h, 0, k, start, TaskId(planId, x));
    var m :| 0 <= m < |start| && start[m].id == TaskId(planId, x) && PH.Succeeded(h, 0, k, m);
    TaskIdInjective(planId, x, chosen[m].id);
  }

  /** The validation rules, for a proposal whose search found this depth. */
  ghost predicate MeetsRules(tasks: seq<V.PlannedTask>, roles: seq<string>, maxTasks: nat, maxDepth: nat, depth: nat) {
    && tasks != [] && |tasks| <= maxTasks
    && V.UniqueIds(tasks) && V.KnownRoles(tasks, roles)
    && V.NoSelfDependencies(tasks) && V.DependenciesExist(tasks)
    && V.Acyclic(V.GraphOf(tasks)) && depth <= maxDepth
  }

  /**
   * Whatever the model proposes and however executor and reviewer behave: the proposal is run exactly when it meets the
   * rules, else the fallback, and the run of the chosen plan's tasks ends completed, or failed or waiting because of a
   * named task, within five calls per task.  No task is ever attempted before its dependencies have been completed.
   */
  method PlanAndRun(proposal: Option<seq<V.PlannedTask>>, roles: seq<string>, planId: Id, replies: nat -> P.Reply,
                    maxTasks: nat := 20, maxDepth: nat := 5)
    returns (runtime: P.Runtime, chosen: seq<V.PlannedTask>, ghost depth: nat, ghost named: nat)
    ensures chosen == if proposal.Some? && MeetsRules(proposal.value, roles, maxTasks, maxDepth, depth) then proposal.value
                      else FALLBACK
    ensures proposal.Some? && proposal.value != [] ==>
              && V.FirstChainsWithin(V.GraphOf(proposal.value), proposal.value[0].id, {}, depth)
              && exists t :: t in proposal.value && V.Attained(V.GraphOf(proposal.value), t.id, depth)
    ensures P.SameGraph(StoredTasks(chosen, planId), runtime.tasks)
    ensures runtime.calls <= 5 * |chosen|
    ensures runtime.status in {P.PlanCompleted, P.PlanFailed, P.PlanWaiting}
    ensures runtime.status == P.PlanCompleted ==> P.AllCompleted(runtime.tasks)
    ensures runtime.status != P.PlanCompleted ==>
              && named < |runtime.tasks| && runtime.tasks[named].status in {P.NeedsApproval, P.Blocked, P.Failed}
              && (runtime.status == P.PlanWaiting <==> runtime.tasks[named].status == P.NeedsApproval)
    ensures P.Legal(runtime.history, 0, StoredTasks(chosen, planId), runtime.tasks)
    ensures AttemptsFollowDependencies(chosen, runtime.history)
  {
    hide P.Legal, AttemptsFollowDependencies, V.Topological, V.GraphOf, V.UniqueIds, V.DependenciesExist, MeetsRules, V.Attained;
    hide V.FirstChainsWithin, P.WellFormed, P.NoneStalled, P.SameGraph, StoredTasks, P.Weight, P.AllCompleted;
    ghost var order: seq<Id>;
    chosen, depth, order := Choose(proposal, roles, maxTasks, maxDepth);
    AcceptedPlansCanRun(chosen, planId, order);
    runtime := new P.Runtime(StoredTasks(chosen, planId), replies);
    var executed;
    executed, named := runtime.Run(None, RankMap(chosen, planId, order));
    HistoryFollowsDependencies(chosen, planId, runtime.history, runtime.tasks);
  }

  /** The proposal if it is valid, else the fallback. */
  method Choose(proposal: Option<seq<V.PlannedTask>>, roles: seq<string>, maxTasks: nat, maxDepth: nat)
    returns (chosen: seq<V.PlannedTask>, ghost depth: nat, ghost order: seq<Id>)
    ensures chosen == if proposal.Some? && MeetsRules(proposal.value, roles, maxTasks, maxDepth, depth) then proposal.value
                      else FALLBACK
    ensures proposal.Some? && proposal.value != [] ==>
              && V.FirstChainsWithin(V.GraphOf(proposal.value), proposal.value[0].id, {}, depth)
              && exists t :: t in proposal.value && V.Attained(V.GraphOf(proposal.value), t.id, depth)
    ensures V.UniqueIds(chosen) && V.DependenciesExist(chosen)
    ensures V.Topological(V.GraphOf(chosen), order) && forall t | t in chosen :: t.id in order
  {
    hide V.Topological, V.GraphOf, V.UniqueIds, V.DependenciesExist, V.KnownRoles, V.NoSelfDependencies, V.Acyclic, V.Attained;
    hide V.FirstChainsWithin;
    chosen, depth, order := FALLBACK, 0, ["inspect", "execute", "verify"];
    FallbackIsOrdered();
    if proposal.Some? {
      var v;
      ghost var found: seq<Id>;
      v, found := V.ValidatePlan(proposal.value, roles, maxTasks, maxDepth);
      depth := v.depth;
      if v.valid {
        chosen := proposal.value;
        order := found;
      }
    }
  }
}
