/** Checking a proposed dependency graph by three-colour depth-first search (packages/adaptive/src/index.ts). */
module PlanValidation {
  import opened Strings

  type Id = string

  datatype PlannedTask = PlannedTask(id: Id, role: Option<string>, dependencies: seq<Id>, hasVerification: bool)

  datatype PlanError =
    | NoTasks
    | TooManyTasks
    | DuplicateId(id: Id)
    | InvalidRole(role: Option<string>)
    | SelfDependency(id: Id)
    | MissingDependency(id: Id, dependency: Id)
    | CycleDetected
    | TooDeep

  datatype PlanValidation = PlanValidation(valid: bool, errors: seq<PlanError>, depth: nat, cycles: seq<seq<Id>>)

  type Graph = map<Id, seq<Id>>

  /** `new Map(tasks.map(t => [t.id, t.dependencies]))`: of two tasks with one id, the later counts. */
  function GraphOf(tasks: seq<PlannedTask>): (g: Graph)
    ensures g.Keys == set t | t in tasks :: t.id
  {
    if tasks == [] then map[]
    else
      var n := |tasks| - 1;
      assert tasks == tasks[..n] + [tasks[n]];
      GraphOf(tasks[..n])[tasks[n].id := tasks[n].dependencies]
  }

  function Deps(g: Graph, id: Id): seq<Id> {
    if id in g then g[id] else []
  }

  // ------------------------------------------------------------------ walks and orders

  /** Each node of `p` depends on the next one. */
  ghost predicate IsWalk(g: Graph, p: seq<Id>) {
    forall i | 0 <= i < |p| - 1 :: p[i + 1] in Deps(g, p[i])
  }

  ghost predicate Acyclic(g: Graph) {
    forall p | |p| >= 2 && IsWalk(g, p) :: p[0] != p[|p| - 1]
  }

  /** A walk whose last node occurs earlier in it. */
  ghost predicate IsLasso(g: Graph, p: seq<Id>) {
    |p| >= 2 && IsWalk(g, p) && p[|p| - 1] in p[..|p| - 1]
  }

  /** Every node of `order` comes after all of its dependencies. */
  ghost predicate Topological(g: Graph, order: seq<Id>) {
    forall k, d | 0 <= k < |order| && d in Deps(g, order[k]) :: d in order[..k]
  }

  /** The position of the first occurrence. */
  ghost function Rank(order: seq<Id>, id: Id): (r: nat)
    requires id in order
    ensures r < |order| && order[r] == id && id !in order[..r]
  {
    if order[0] == id then 0 else 1 + Rank(order[1..], id)
  }

  lemma DependencyRanksLower(g: Graph, order: seq<Id>, id: Id, d: Id)
    requires Topological(g, order) && id in order && d in Deps(g, id)
    ensures d in order && Rank(order, d) < Rank(order, id)
  {
  }

  lemma {:induction false} RanksFallAlongWalks(g: Graph, order: seq<Id>, p: seq<Id>)
    requires Topological(g, order) && IsWalk(g, p) && |p| >= 2 && p[0] in order
    ensures p[|p| - 1] in order && Rank(order, p[|p| - 1]) < Rank(order, p[0])
    decreases |p|
  {
    DependencyRanksLower(g, order, p[0], p[1]);
    if |p| > 2 {
      var q := p[1..];
      forall i | 0 <= i < |q| - 1
        ensures q[i + 1] in Deps(g, q[i])
      {
        assert p[i + 2] in Deps(g, p[i + 1]);
      }
      RanksFallAlongWalks(g, order, q);
    }
  }

  lemma OrderedIsAcyclic(g: Graph, order: seq<Id>)
    requires Topological(g, order) && forall x | x in g :: x in order
    ensures Acyclic(g)
  {
    forall p | |p| >= 2 && IsWalk(g, p)
      ensures p[0] != p[|p| - 1]
    {
      assert p[1] in Deps(g, p[0]);
      RanksFallAlongWalks(g, order, p);
    }
  }

  lemma LassoIsCycle(g: Graph, p: seq<Id>)
    requires IsLasso(g, p)
    ensures !Acyclic(g)
  {
    var n := |p| - 1;
    var k :| 0 <= k < n && p[..n][k] == p[n];
    var q := p[k..];
    forall i | 0 <= i < |q| - 1
      ensures q[i + 1] in Deps(g, q[i])
    {
      assert p[k + i + 1] in Deps(g, p[k + i]);
    }
    assert q[0] == q[|q| - 1] && IsWalk(g, q);
  }

  // ------------------------------------------------------------------ the search

  ghost predicate Distinct(p: seq<Id>) {
    forall i, j | 0 <= i < j < |p| :: p[i] != p[j]
  }

  /** A walk that always takes the first listed dependency. */
  ghost predicate IsFirstChain(g: Graph, p: seq<Id>) {
    |p| >= 1 && forall i | 0 <= i < |p| - 1 :: Deps(g, p[i]) != [] && p[i + 1] == Deps(g, p[i])[0]
  }

  /** Such a walk from `id` that repeats no task and avoids the tasks in `avoid`. */
  ghost predicate FreshFirstChain(g: Graph, id: Id, p: seq<Id>, avoid: set<Id>) {
    IsFirstChain(g, p) && p[0] == id && Distinct(p) && forall x | x in p :: x !in avoid
  }

  ghost predicate FirstChainsWithin(g: Graph, id: Id, avoid: set<Id>, depth: nat) {
    forall p | FreshFirstChain(g, id, p, avoid) :: |p| <= depth
  }

  lemma NoFirstChain(g: Graph, id: Id, avoid: set<Id>)
    requires id in avoid
    ensures FirstChainsWithin(g, id, avoid, 0)
  {}

  lemma FirstChainsMore(g: Graph, id: Id, avoid: set<Id>, depth: nat, more: nat)
    requires FirstChainsWithin(g, id, avoid, depth) && depth <= more
    ensures FirstChainsWithin(g, id, avoid, more)
  {}

  lemma FirstChainsStep(g: Graph, id: Id, avoid: set<Id>, depth: nat)
    requires Deps(g, id) != [] ==> FirstChainsWithin(g, Deps(g, id)[0], avoid + {id}, depth)
    ensures FirstChainsWithin(g, id, avoid, 1 + depth)
  {
    forall p | FreshFirstChain(g, id, p, avoid)
      ensures |p| <= 1 + depth
    {
      if |p| > 1 { assert FreshFirstChain(g, Deps(g, id)[0], p[1..], avoid + {id}); }
    }
  }

  /** Some dependency chain from `id` has exactly `depth` tasks. */
  ghost predicate Attained(g: Graph, id: Id, depth: nat) {
    exists chain :: |chain| == depth && chain != [] && chain[0] == id && IsWalk(g, chain)
  }

  lemma AttainedStep(g: Graph, id: Id, d: Id, below: nat)
    requires d in Deps(g, id) && (below > 0 ==> Attained(g, d, below))
    ensures Attained(g, id, 1 + below)
  {
    if below == 0 {
      AttainedAlone(g, id);
    } else {
      var chain :| |chain| == below && chain != [] && chain[0] == d && IsWalk(g, chain);
      var longer := [id] + chain;
      assert |longer| == 1 + below && longer[0] == id && IsWalk(g, longer);
    }
  }

  lemma AttainedAlone(g: Graph, id: Id)
    ensures Attained(g, id, 1)
  {
    assert IsWalk(g, [id]) && [id][0] == id && |[id]| == 1;
  }

  lemma WalkOn(g: Graph, path: seq<Id>, id: Id, d: Id)
    requires IsWalk(g, path + [id]) && d in Deps(g, id)
    ensures IsWalk(g, path + [id] + [d])
  {
    var next := path + [id] + [d];
    forall i | 0 <= i < |next| - 1
      ensures next[i + 1] in Deps(g, next[i])
    {
      if i < |path| { assert (path + [id])[i + 1] in Deps(g, (path + [id])[i]); }
    }
  }

  lemma OrderExtends(g: Graph, order: seq<Id>, id: Id)
    requires Topological(g, order) && forall d | d in Deps(g, id) :: d in order
    ensures Topological(g, order + [id])
  {
    var longer := order + [id];
    forall k, d | 0 <= k < |longer| && d in Deps(g, longer[k])
      ensures d in longer[..k]
    {
      assert longer[..k] == order[..k];
      if k == |order| { assert order[..k] == order; }
    }
  }

  ghost predicate ClosedUnder(g: Graph, nodes: set<Id>) {
    forall x, d | x in nodes && d in Deps(g, x) :: d in nodes
  }

  lemma DependencyInside(g: Graph, nodes: set<Id>, id: Id, d: Id)
    requires ClosedUnder(g, nodes) && id in nodes && d in Deps(g, id)
    ensures d in nodes
  {}

  class Search {
    const graph: Graph
    var visiting: set<Id>
    var done: set<Id>
    var cycles: seq<seq<Id>>
    /** The finished nodes, in the order in which they finished. */
    ghost var order: seq<Id>

    ghost predicate Valid()
      reads this`done, this`cycles, this`order
    {
      && (forall c | c in cycles :: IsLasso(graph, c))
      && (cycles == [] ==> Topological(graph, order) && done == set x | x in order)
      && (order == [] <==> done == {})
    }

    constructor (g: Graph)
      ensures Valid() && graph == g && visiting == {} && done == {} && cycles == []
    {
      graph, visiting, done, cycles, order := g, {}, {}, [], [];
    }

    /** The node is already on the path: the path back to it is a cycle. */
    method Report(id: Id, path: seq<Id>)
      requires Valid() && id in path && IsWalk(graph, path + [id])
      modifies this`cycles
      ensures Valid() && cycles == old(cycles) + [path + [id]]
    {
      cycles := cycles + [path + [id]];
    }

    method Finish(id: Id)
      requires Valid() && (cycles == [] ==> forall d | d in Deps(graph, id) :: d in done)
      modifies this`visiting, this`done, this`order
      ensures Valid() && visiting == old(visiting) - {id} && done == old(done) + {id}
    {
      if cycles == [] { OrderExtends(graph, order, id); }
      visiting := visiting - {id};
      done := done + {id};
      order := order + [id];
    }

    method Walk(id: Id, path: seq<Id>, ghost nodes: set<Id>) returns (depth: nat)
      requires Valid() && id in nodes && ClosedUnder(graph, nodes)
      requires visiting == (set x | x in path) && visiting <= nodes
      requires IsWalk(graph, path + [id])
      modifies this
      ensures Valid() && visiting == old(visiting)
      ensures old(done) <= done && old(cycles) <= cycles
      ensures cycles == [] ==> id in done
      ensures depth > 0 ==> Attained(graph, id, depth)
      ensures id !in old(visiting) && id !in old(done) ==> depth > 0
      ensures old(done) == {} ==> FirstChainsWithin(graph, id, old(visiting), depth)
      decreases nodes - visiting
    {
      hide IsWalk, IsLasso, Topological, FirstChainsWithin, Attained, ClosedUnder, Valid;
      if id in visiting {
        Report(id, path);
        NoFirstChain(graph, id, visiting);
        return 0;
      }
      if id in done { return 0; }
      visiting := visiting + {id};
      depth := 1;
      ghost var inner := path + [id];
      assert visiting == set x | x in inner;
      assert visiting <= nodes && nodes - visiting < nodes - old(visiting) by { assert id in nodes - old(visiting); }
      AttainedAlone(graph, id);
      var deps := Deps(graph, id);
      if deps == [] { FirstChainsStep(graph, id, old(visiting), 0); }
      var i := 0;
      while i < |deps|
        invariant 0 <= i <= |deps|
        invariant Valid() && visiting == old(visiting) + {id}
        invariant old(done) <= done && old(cycles) <= cycles
        invariant cycles == [] ==> forall k | 0 <= k < i :: deps[k] in done
        invariant depth > 0 && Attained(graph, id, depth)
        invariant i == 0 ==> done == old(done) && depth == 1
        invariant old(done) == {} && (i > 0 || deps == []) ==> FirstChainsWithin(graph, id, old(visiting), depth)
      {
        WalkOn(graph, path, id, deps[i]);
        DependencyInside(graph, nodes, id, deps[i]);
        var below := Walk(deps[i], path + [id], nodes);
        AttainedStep(graph, id, deps[i], below);
        if i == 0 && old(done) == {} { FirstChainsStep(graph, id, old(visiting), below); }
        if 1 + below > depth {
          if old(done) == {} && i > 0 { FirstChainsMore(graph, id, old(visiting), depth, 1 + below); }
          depth := 1 + below;
        }
        i := i + 1;
      }
      Finish(id);
    }
  }

  // ------------------------------------------------------------------ validation

  function AllNodes(tasks: seq<PlannedTask>): set<Id> {
    (set t | t in tasks :: t.id) + (set t, d | t in tasks && d in t.dependencies :: d)
  }

  lemma {:induction false} GraphDependencies(tasks: seq<PlannedTask>)
    ensures forall x | x in GraphOf(tasks) :: exists t :: t in tasks && t.id == x && t.dependencies == GraphOf(tasks)[x]
    ensures (forall i, j | 0 <= i < j < |tasks| :: tasks[i].id != tasks[j].id) ==>
              forall t | t in tasks :: GraphOf(tasks)[t.id] == t.dependencies
  {
    if tasks != [] {
      var n := |tasks| - 1;
      assert tasks == tasks[..n] + [tasks[n]];
      GraphDependencies(tasks[..n]);
    }
  }

  predicate UniqueIds(tasks: seq<PlannedTask>) {
    forall i, j | 0 <= i < j < |tasks| :: tasks[i].id != tasks[j].id
  }

  function RoleName(t: PlannedTask): string {
    if t.role.Some? then t.role.value else "general"
  }

  predicate KnownRoles(tasks: seq<PlannedTask>, roles: seq<string>) {
    forall t | t in tasks :: RoleName(t) in roles
  }

  predicate NoSelfDependencies(tasks: seq<PlannedTask>) {
    forall t | t in tasks :: t.id !in t.dependencies
  }

  predicate DependenciesExist(tasks: seq<PlannedTask>) {
    forall t, d | t in tasks && d in t.dependencies :: exists u :: u in tasks && u.id == d
  }

  /** What each reported error says of the plan. */
  ghost predicate Warranted(e: PlanError, tasks: seq<PlannedTask>, roles: seq<string>, maxTasks: nat, maxDepth: nat, depth: nat) {
    match e
    case NoTasks => tasks == []
    case TooManyTasks => |tasks| > maxTasks
    case DuplicateId(id) => exists i, j :: 0 <= i < j < |tasks| && tasks[i].id == id && tasks[j].id == id
    case InvalidRole(role) =>
      && (exists i :: 0 <= i < |tasks| && tasks[i].role == role)
      && (role.Some? ==> role.value !in roles) && (role.None? ==> "general" !in roles)
    case SelfDependency(id) => exists i :: 0 <= i < |tasks| && tasks[i].id == id && id in tasks[i].dependencies
    case MissingDependency(id, d) =>
      d != id && (exists i :: 0 <= i < |tasks| && tasks[i].id == id && d in tasks[i].dependencies) && forall u | u in tasks :: u.id != d
    case CycleDetected => !Acyclic(GraphOf(tasks))
    case TooDeep => depth > maxDepth
  }

  /** Nothing is wrong with a plan exactly when it meets all the rules. */
  lemma NothingWarrantedExactlyWhen(tasks: seq<PlannedTask>, roles: seq<string>, maxTasks: nat, maxDepth: nat, depth: nat)
    ensures (forall e :: !Warranted(e, tasks, roles, maxTasks, maxDepth, depth))
            <==> && tasks != [] && |tasks| <= maxTasks
                 && UniqueIds(tasks) && KnownRoles(tasks, roles)
                 && NoSelfDependencies(tasks) && DependenciesExist(tasks)
                 && Acyclic(GraphOf(tasks)) && depth <= maxDepth
  {
    hide Warranted, Acyclic, UniqueIds, KnownRoles, NoSelfDependencies, DependenciesExist, GraphOf;
    if forall e :: !Warranted(e, tasks, roles, maxTasks, maxDepth, depth) {
      NothingWrongWithTasks(tasks, roles, maxTasks, maxDepth, depth);
      NothingWrongBetweenTasks(tasks, roles, maxTasks, maxDepth, depth);
    } else {
      var e :| Warranted(e, tasks, roles, maxTasks, maxDepth, depth);
      WarrantedIsWrong(e, tasks, roles, maxTasks, maxDepth, depth);
    }
  }

  lemma NothingWrongWithTasks(tasks: seq<PlannedTask>, roles: seq<string>, maxTasks: nat, maxDepth: nat, depth: nat)
    requires forall e :: !Warranted(e, tasks, roles, maxTasks, maxDepth, depth)
    ensures tasks != [] && |tasks| <= maxTasks && UniqueIds(tasks) && KnownRoles(tasks, roles)
    ensures Acyclic(GraphOf(tasks)) && depth <= maxDepth
  {
    hide Acyclic, GraphOf;
    assert !Warranted(NoTasks, tasks, roles, maxTasks, maxDepth, depth);
    assert !Warranted(TooManyTasks, tasks, roles, maxTasks, maxDepth, depth);
    assert !Warranted(CycleDetected, tasks, roles, maxTasks, maxDepth, depth);
    assert !Warranted(TooDeep, tasks, roles, maxTasks, maxDepth, depth);
    forall i, j | 0 <= i < j < |tasks|
      ensures tasks[i].id != tasks[j].id
    {
      assert !Warranted(DuplicateId(tasks[i].id), tasks, roles, maxTasks, maxDepth, depth);
    }
    forall i | 0 <= i < |tasks|
      ensures RoleName(tasks[i]) in roles
    {
      assert !Warranted(InvalidRole(tasks[i].role), tasks, roles, maxTasks, maxDepth, depth);
    }
  }

  lemma NothingWrongBetweenTasks(tasks: seq<PlannedTask>, roles: seq<string>, maxTasks: nat, maxDepth: nat, depth: nat)
    requires forall e :: !Warranted(e, tasks, roles, maxTasks, maxDepth, depth)
    ensures NoSelfDependencies(tasks) && DependenciesExist(tasks)
  {
    hide Acyclic, GraphOf;
    forall i | 0 <= i < |tasks|
      ensures tasks[i].id !in tasks[i].dependencies
      ensures forall d | d in tasks[i].dependencies :: exists u :: u in tasks && u.id == d
    {
      assert !Warranted(SelfDependency(tasks[i].id), tasks, roles, maxTasks, maxDepth, depth);
      forall d | d in tasks[i].dependencies
        ensures exists u :: u in tasks && u.id == d
      {
        assert !Warranted(MissingDependency(tasks[i].id, d), tasks, roles, maxTasks, maxDepth, depth);
      }
    }
  }

  lemma WarrantedIsWrong(e: PlanError, tasks: seq<PlannedTask>, roles: seq<string>, maxTasks: nat, maxDepth: nat, depth: nat)
    requires Warranted(e, tasks, roles, maxTasks, maxDepth, depth)
    ensures !(&& tasks != [] && |tasks| <= maxTasks
              && UniqueIds(tasks) && KnownRoles(tasks, roles)
              && NoSelfDependencies(tasks) && DependenciesExist(tasks)
              && Acyclic(GraphOf(tasks)) && depth <= maxDepth)
  {
    hide Acyclic, GraphOf;
    match e {
      case DuplicateId(id) =>
      case InvalidRole(role) =>
        var i :| 0 <= i < |tasks| && tasks[i].role == role;
        assert tasks[i] in tasks;
      case SelfDependency(id) =>
        var i :| 0 <= i < |tasks| && tasks[i].id == id && id in tasks[i].dependencies;
        assert tasks[i] in tasks;
      case MissingDependency(id, d) =>
        var i :| 0 <= i < |tasks| && tasks[i].id == id && d in tasks[i].dependencies;
        assert tasks[i] in tasks;
      case _ =>
    }
  }

  /**
   * A plan is valid exactly when it is non-empty, small, well-named, closed, acyclic and not found
   * too deep, and every error that is reported says what is wrong.  `order` lists the finished tasks, dependencies first.
   */
  method ValidatePlan(tasks: seq<PlannedTask>, roles: seq<string>, maxTasks: nat := 20, maxDepth: nat := 5)
    returns (v: PlanValidation, ghost order: seq<Id>)
    ensures v.cycles == [] <==> Acyclic(GraphOf(tasks))
    ensures forall c | c in v.cycles :: IsLasso(GraphOf(tasks), c)
    ensures v.cycles == [] ==> Topological(GraphOf(tasks), order) && forall t | t in tasks :: t.id in order
    ensures v.depth > 0 ==> exists t :: t in tasks && Attained(GraphOf(tasks), t.id, v.depth)
    ensures tasks != [] ==> v.depth > 0 && FirstChainsWithin(GraphOf(tasks), tasks[0].id, {}, v.depth)
    ensures forall e :: e in v.errors <==> Warranted(e, tasks, roles, maxTasks, maxDepth, v.depth)
    ensures v.valid <==> v.errors == []
    ensures v.valid <==> && tasks != [] && |tasks| <= maxTasks
                         && UniqueIds(tasks) && KnownRoles(tasks, roles)
                         && NoSelfDependencies(tasks) && DependenciesExist(tasks)
                         && Acyclic(GraphOf(tasks)) && v.depth <= maxDepth
  {
    hide Acyclic, Topological, Attained, FirstChainsWithin, GraphOf, IsLasso, UniqueIds, KnownRoles, NoSelfDependencies, DependenciesExist;
    var errors, ids := CheckTasks(tasks, roles, maxTasks);
    var more := CheckDependencies(tasks, ids);
    var walkErrors, depth, cycles;
    walkErrors, depth, cycles, order := WalkAll(tasks, maxDepth);
    errors := errors + more + walkErrors;
    v := PlanValidation(errors == [], errors, depth, cycles);
    forall e
      ensures e in errors <==> Warranted(e, tasks, roles, maxTasks, maxDepth, depth)
    {
      Reported(e, tasks, ids, roles, maxTasks, maxDepth, depth);
    }
    NothingWarrantedExactlyWhen(tasks, roles, maxTasks, maxDepth, depth);
    assert errors != [] ==> errors[0] in errors;
  }

  lemma Reported(e: PlanError, tasks: seq<PlannedTask>, ids: set<Id>, roles: seq<string>, maxTasks: nat, maxDepth: nat, depth: nat)
    requires ids == set t | t in tasks :: t.id
    ensures Warranted(e, tasks, roles, maxTasks, maxDepth, depth)
            <==> || TaskError(e, tasks, |tasks|, roles, maxTasks) || DependencyError(e, tasks, |tasks|, ids)
                 || (e == CycleDetected && !Acyclic(GraphOf(tasks))) || (e == TooDeep && depth > maxDepth)
  {
    hide Acyclic, GraphOf;
  }

  /** The errors of the first `n` tasks themselves. */
  ghost predicate TaskError(e: PlanError, tasks: seq<PlannedTask>, n: nat, roles: seq<string>, maxTasks: nat)
    requires n <= |tasks|
  {
    match e
    case NoTasks => tasks == []
    case TooManyTasks => |tasks| > maxTasks
    case DuplicateId(id) => exists i, j :: 0 <= i < j < n && tasks[i].id == id && tasks[j].id == id
    case InvalidRole(role) => exists i :: 0 <= i < n && tasks[i].role == role && RoleName(tasks[i]) !in roles
    case _ => false
  }

  lemma TaskErrorNext(e: PlanError, tasks: seq<PlannedTask>, n: nat, roles: seq<string>, maxTasks: nat)
    requires n < |tasks|
    ensures TaskError(e, tasks, n + 1, roles, maxTasks)
            <==> || TaskError(e, tasks, n, roles, maxTasks)
                 || (e == DuplicateId(tasks[n].id) && exists i :: 0 <= i < n && tasks[i].id == tasks[n].id)
                 || (e == InvalidRole(tasks[n].role) && RoleName(tasks[n]) !in roles)
  {}

  method CheckTasks(tasks: seq<PlannedTask>, roles: seq<string>, maxTasks: nat) returns (errors: seq<PlanError>, ids: set<Id>)
    ensures ids == set t | t in tasks :: t.id
    ensures forall e :: e in errors <==> TaskError(e, tasks, |tasks|, roles, maxTasks)
  {
    errors := [];
    if |tasks| == 0 { errors := errors + [NoTasks]; }
    if |tasks| > maxTasks { errors := errors + [TooManyTasks]; }
    ids := {};
    assert forall e :: e in errors <==> TaskError(e, tasks, 0, roles, maxTasks);
    hide TaskError;
    for i := 0 to |tasks|
      invariant ids == set t | t in tasks[..i] :: t.id
      invariant forall e :: e in errors <==> TaskError(e, tasks, i, roles, maxTasks)
    {
      assert tasks[..i + 1] == tasks[..i] + [tasks[i]];
      forall e ensures TaskError(e, tasks, i + 1, roles, maxTasks)
                       <==> || TaskError(e, tasks, i, roles, maxTasks) || (e == DuplicateId(tasks[i].id) && tasks[i].id in ids)
                            || (e == InvalidRole(tasks[i].role) && RoleName(tasks[i]) !in roles)
      {
        TaskErrorNext(e, tasks, i, roles, maxTasks);
        assert tasks[i].id in ids <==> exists k :: 0 <= k < i && tasks[k].id == tasks[i].id;
      }
      if tasks[i].id in ids { errors := errors + [DuplicateId(tasks[i].id)]; }
      ids := ids + {tasks[i].id};
      if RoleName(tasks[i]) !in roles { errors := errors + [InvalidRole(tasks[i].role)]; }
    }
    assert tasks[..|tasks|] == tasks;
  }

  /** The errors of the first `n` dependencies of `t`. */
  ghost predicate OwnError(e: PlanError, t: PlannedTask, n: nat, ids: set<Id>)
    requires n <= |t.dependencies|
  {
    match e
    case SelfDependency(id) => id == t.id && id in t.dependencies[..n]
    case MissingDependency(id, d) => id == t.id && d != id && d in t.dependencies[..n] && d !in ids
    case _ => false
  }

  lemma OwnErrorNext(e: PlanError, t: PlannedTask, n: nat, ids: set<Id>)
    requires n < |t.dependencies|
    ensures OwnError(e, t, n + 1, ids)
            <==> || OwnError(e, t, n, ids)
                 || (var d := t.dependencies[n];
                     if d == t.id then e == SelfDependency(t.id) else d !in ids && e == MissingDependency(t.id, d))
  {
    assert t.dependencies[..n + 1] == t.dependencies[..n] + [t.dependencies[n]];
  }

  ghost predicate DependencyError(e: PlanError, tasks: seq<PlannedTask>, n: nat, ids: set<Id>)
    requires n <= |tasks|
  {
    match e
    case SelfDependency(id) => exists i :: 0 <= i < n && tasks[i].id == id && id in tasks[i].dependencies
    case MissingDependency(id, d) =>
      d != id && d !in ids && exists i :: 0 <= i < n && tasks[i].id == id && d in tasks[i].dependencies
    case _ => false
  }

  lemma DependencyErrorNext(e: PlanError, tasks: seq<PlannedTask>, n: nat, ids: set<Id>)
    requires n < |tasks|
    ensures DependencyError(e, tasks, n + 1, ids)
            <==> DependencyError(e, tasks, n, ids) || OwnError(e, tasks[n], |tasks[n].dependencies|, ids)
  {}

  method CheckDependencies(tasks: seq<PlannedTask>, ids: set<Id>) returns (errors: seq<PlanError>)
    ensures forall e :: e in errors <==> DependencyError(e, tasks, |tasks|, ids)
  {
    errors := [];
    assert forall e :: !DependencyError(e, tasks, 0, ids);
    hide DependencyError, OwnError;
    for i := 0 to |tasks|
      invariant forall e :: e in errors <==> DependencyError(e, tasks, i, ids)
    {
      forall e ensures DependencyError(e, tasks, i + 1, ids)
                       <==> DependencyError(e, tasks, i, ids) || OwnError(e, tasks[i], |tasks[i].dependencies|, ids)
      {
        DependencyErrorNext(e, tasks, i, ids);
      }
      var own := CheckOwn(tasks[i], ids);
      errors := errors + own;
    }
  }

  method CheckOwn(t: PlannedTask, ids: set<Id>) returns (errors: seq<PlanError>)
    ensures forall e :: e in errors <==> OwnError(e, t, |t.dependencies|, ids)
  {
    errors := [];
    assert forall e :: !OwnError(e, t, 0, ids);
    hide OwnError;
    for j := 0 to |t.dependencies|
      invariant forall e :: e in errors <==> OwnError(e, t, j, ids)
    {
      var d := t.dependencies[j];
      forall e ensures OwnError(e, t, j + 1, ids)
                       <==> || OwnError(e, t, j, ids)
                            || (if d == t.id then e == SelfDependency(t.id) else d !in ids && e == MissingDependency(t.id, d))
      {
        OwnErrorNext(e, t, j, ids);
      }
      if d == t.id { errors := errors + [SelfDependency(t.id)]; }
      else if d !in ids { errors := errors + [MissingDependency(t.id, d)]; }
    }
  }

  lemma NodesAreClosed(tasks: seq<PlannedTask>)
    ensures ClosedUnder(GraphOf(tasks), AllNodes(tasks))
    ensures forall i | 0 <= i < |tasks| :: tasks[i].id in AllNodes(tasks)
    ensures forall x | x in GraphOf(tasks) :: exists i | 0 <= i < |tasks| :: tasks[i].id == x
  {
    GraphDependencies(tasks);
  }

  method WalkAll(tasks: seq<PlannedTask>, maxDepth: nat)
    returns (errors: seq<PlanError>, depth: nat, cycles: seq<seq<Id>>, ghost order: seq<Id>)
    ensures cycles == [] <==> Acyclic(GraphOf(tasks))
    ensures forall c | c in cycles :: IsLasso(GraphOf(tasks), c)
    ensures cycles == [] ==> Topological(GraphOf(tasks), order) && forall t | t in tasks :: t.id in order
    ensures depth > 0 ==> exists t :: t in tasks && Attained(GraphOf(tasks), t.id, depth)
    ensures tasks != [] ==> depth > 0 && FirstChainsWithin(GraphOf(tasks), tasks[0].id, {}, depth)
    ensures forall e :: e in errors <==> (e == CycleDetected && !Acyclic(GraphOf(tasks))) || (e == TooDeep && depth > maxDepth)
  {
    hide FirstChainsWithin, Attained, IsWalk, ClosedUnder, AllNodes, GraphOf, Topological, Acyclic, IsLasso;
    var search := new Search(GraphOf(tasks));
    ghost var nodes := AllNodes(tasks);
    NodesAreClosed(tasks);
    depth := 0;
    for i := 0 to |tasks|
      invariant search.Valid() && search.visiting == {} && search.graph == GraphOf(tasks)
      invariant i == 0 ==> search.done == {} && depth == 0
      invariant search.cycles == [] ==> forall k | 0 <= k < i :: tasks[k].id in search.done
      invariant depth > 0 ==> exists t :: t in tasks && Attained(GraphOf(tasks), t.id, depth)
      invariant i > 0 ==> depth > 0 && FirstChainsWithin(GraphOf(tasks), tasks[0].id, {}, depth)
    {
      FromTheTop(search.graph, tasks[i].id);
      var below := search.Walk(tasks[i].id, [], nodes);
      if below > depth {
        if i > 0 { FirstChainsMore(GraphOf(tasks), tasks[0].id, {}, depth, below); }
        depth := below;
      }
    }
    errors, cycles, order := [], search.cycles, search.order;
    if cycles != [] {
      LassoIsCycle(search.graph, cycles[0]);
      errors := errors + [CycleDetected];
    } else {
      OrderedIsAcyclic(search.graph, order);
    }
    if depth > maxDepth { errors := errors + [TooDeep]; }
  }

  lemma FromTheTop(g: Graph, id: Id)
    ensures IsWalk(g, [] + [id])
  {}
}
