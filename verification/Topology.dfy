/** The registry of logical nodes and their current routes (packages/network/src/topology.ts). */
module Topology {
  import opened Strings

  type Id = string

  /** A route issued by a registry; the revision identifies it. */
  datatype Route = Route(target: Id, connectionId: Option<Id>, available: bool, revision: nat)

  /** Routes of a connection, as `invalidateConnection` finds them. */
  function Without(routes: map<Id, Route>, connectionId: Id): map<Id, Route> {
    map k | k in routes && routes[k].connectionId != Some(connectionId) :: routes[k]
  }

  /** White space and line terminators, as `trim` removes them (ECMA-262, sections 12.2 and 12.3). */
  predicate IsBlank(c: char) {
    || '\U{0009}' <= c <= '\U{000D}' || c == ' ' || c == '\U{00A0}' || c == '\U{1680}' || '\U{2000}' <= c <= '\U{200A}'
    || c == '\U{2028}' || c == '\U{2029}' || c == '\U{202F}' || c == '\U{205F}' || c == '\U{3000}' || c == '\U{FEFF}'
  }

  predicate IsControl(c: char) {
    c <= '\U{001F}' || c == '\U{007F}'
  }

  /** The connection ids a registry takes: not blank, and without control characters. */
  predicate IsIdentifier(id: string) {
    (exists i | 0 <= i < |id| :: !IsBlank(id[i])) && forall i | 0 <= i < |id| :: !IsControl(id[i])
  }

  class LoomRouteRegistry {
    /** Whether an id has a canonical address; the registry throws on any other. */
    const addressable: Id -> bool
    var nodes: set<Id>
    var routes: map<Id, Route>
    var nextRevision: nat
    /** Every route ever issued. */
    ghost var issued: set<Route>

    /** Each target has a node and an address, each current route was issued for its target, and revisions identify routes. */
    ghost predicate Valid()
      reads this
    {
      && routes.Keys <= nodes
      && (forall k | k in nodes :: addressable(k))
      && (forall k | k in routes :: routes[k] in issued && routes[k].target == k)
      && (forall r | r in issued :: 0 < r.revision <= nextRevision)
      && (forall r | r in issued && r.connectionId.Some? :: IsIdentifier(r.connectionId.value))
      && (forall r, s | r in issued && s in issued && r.revision == s.revision :: r == s)
    }

    constructor (canAddress: Id -> bool)
      ensures Valid() && addressable == canAddress && nodes == {} && routes == map[] && nextRevision == 0 && issued == {}
    {
      addressable := canAddress;
      nodes, routes, nextRevision, issued := {}, map[], 0, {};
    }

    method RegisterNode(id: Id) returns (registered: bool)
      requires Valid()
      modifies this`nodes
      ensures Valid() && registered == addressable(id)
      ensures nodes == if registered then old(nodes) + {id} else old(nodes)
    {
      registered := addressable(id);
      if registered { nodes := nodes + {id}; }
    }

    /**
     * The new route replaces the target's old one; the node stays.  A target without address changes nothing; a bad
     * connection id is refused only after the node is registered and the revision counted, and the old route stays.
     */
    method SetRoute(target: Id, connectionId: Option<Id>, available: bool) returns (route: Option<Route>)
      requires Valid()
      modifies this
      ensures Valid()
      ensures route.Some? <==> addressable(target) && (connectionId.Some? ==> IsIdentifier(connectionId.value))
      ensures route.Some? ==> && route.value == Route(target, connectionId, available, nextRevision)
                              && route.value !in old(issued)
      ensures issued == old(issued) + (if route.Some? then {route.value} else {})
      ensures routes == if route.Some? then old(routes)[target := route.value] else old(routes)
      ensures nextRevision == old(nextRevision) + (if addressable(target) then 1 else 0)
      ensures nodes == old(nodes) + (if addressable(target) then {target} else {})
    {
      hide IsIdentifier;
      if !addressable(target) { return None; }
      if target !in nodes {
        var _ := RegisterNode(target);
      }
      nextRevision := nextRevision + 1;
      if connectionId.Some? && !IsIdentifier(connectionId.value) { return None; }
      var issue := Route(target, connectionId, available, nextRevision);
      routes := routes[target := issue];
      issued := issued + {issue};
      route := Some(issue);
    }

    method ReplaceConnection(target: Id, connectionId: Id) returns (route: Option<Route>)
      requires Valid()
      modifies this
      ensures Valid()
      ensures route.Some? <==> addressable(target) && IsIdentifier(connectionId)
      ensures route.Some? ==> route.value == Route(target, Some(connectionId), true, nextRevision)
      ensures issued == old(issued) + (if route.Some? then {route.value} else {})
      ensures routes == if route.Some? then old(routes)[target := route.value] else old(routes)
      ensures nextRevision == old(nextRevision) + (if addressable(target) then 1 else 0)
      ensures nodes == old(nodes) + (if addressable(target) then {target} else {})
    {
      route := SetRoute(target, Some(connectionId), true);
    }

    function Resolve(target: Id): Option<Route>
      reads this
    {
      if target in routes then Some(routes[target]) else None
    }

    /** A route issued by this registry is current exactly while it is the one its target resolves to. */
    method IsCurrent(route: Route) returns (current: bool)
      requires Valid() && route in issued
      ensures current <==> Resolve(route.target) == Some(route)
    {
      current := route.target in routes && routes[route.target].revision == route.revision;
    }

    /** Remove the target's route, unless it no longer matches what the caller expects. */
    method InvalidateRoute(target: Id, connectionId: Option<Id>, revision: Option<nat>) returns (removed: bool)
      requires Valid()
      modifies this`routes
      ensures Valid()
      ensures removed <==> && target in old(routes)
                           && (connectionId.Some? ==> old(routes)[target].connectionId == connectionId)
                           && (revision.Some? ==> Some(old(routes)[target].revision) == revision)
      ensures routes == if removed then old(routes) - {target} else old(routes)
    {
      if target !in routes { return false; }
      var current := routes[target];
      if connectionId.Some? && current.connectionId != connectionId { return false; }
      if revision.Some? && Some(current.revision) != revision { return false; }
      routes := routes - {target};
      removed := true;
    }

    /** Remove every route over the connection, and report exactly their targets; nodes stay.  A bad connection id is
        refused, and no route has one. */
    method InvalidateConnection(connectionId: Id) returns (accepted: bool, invalidated: seq<Id>)
      requires Valid()
      modifies this`routes
      ensures Valid() && routes == Without(old(routes), connectionId)
      ensures accepted == IsIdentifier(connectionId)
      ensures forall k :: k in invalidated <==> k in old(routes) && old(routes)[k].connectionId == Some(connectionId)
    {
      hide IsIdentifier;
      accepted, invalidated := IsIdentifier(connectionId), [];
      if !accepted {
        assert routes == Without(routes, connectionId);
        return;
      }
      ghost var before := routes;
      var keys := routes.Keys;
      while keys != {}
        invariant keys <= routes.Keys <= before.Keys
        invariant forall k | k in routes :: routes[k] == before[k]
        invariant forall k | k in before && k !in keys :: k in routes <==> before[k].connectionId != Some(connectionId)
        invariant forall k :: k in invalidated <==> k in before && k !in keys && before[k].connectionId == Some(connectionId)
        decreases keys
      {
        var key :| key in keys;
        assert key in before && routes[key] == before[key] && routes[key].target == key;
        keys := keys - {key};
        if routes[key].connectionId == Some(connectionId) {
          invalidated := invalidated + [routes[key].target];
          routes := routes - {key};
        }
      }
    }
  }
}
