/**
 Which addresses each WireGuard peer carries (pkg/net/mesh/peers.go).

 The walk is the source's depth-first search: one `visited` map, created by the outermost call,
 is shared and grown by every recursive call. Go iterates maps in an unspecified order; every loop
 over a map below picks its next key with `:|`, so each contract holds for all orders.
 */
module MeshRouting {
  import opened Wrappers
  import opened MeshData

  /** networking.AdjacencyMap; a nil row reads as the empty map. */
  type AdjacencyMap = map<string, map<string, Edge>>

  /**
   What the walk reads from storage: vertices by ID, routes as listed, and the strings that
   `netip.ParsePrefix` accepts together with their value.
   */
  datatype Mesh = Mesh(nodes: map<string, Node>, routes: seq<Route>, prefixes: map<string, Prefix>) {

    /** Vertices are stored under their own ID, since the graph hashes a node to its ID. */
    predicate Indexed() {
      forall id :: id in nodes ==> nodes[id].id == id
    }

    predicate Keyed(id: string) {
      id in nodes && nodes[id].publicKey != 0
    }

    /** The destination CIDRs of every route the node exposes. */
    function Exposed(id: string): set<string> {
      set i, j | 0 <= i < |routes| && 0 <= j < |routes[i].cidrs| && routes[i].node == id :: routes[i].cidrs[j]
    }

    predicate RoutesParse(id: string) {
      Exposed(id) <= prefixes.Keys
    }

    /** Looking the node up fails, or it would contribute and one of its routes does not parse. */
    predicate Bad(id: string) {
      id !in nodes || (Keyed(id) && !RoutesParse(id))
    }

    function Parsed(cidrs: set<string>): set<Prefix> {
      set c | c in cidrs && c in prefixes :: prefixes[c]
    }

    /** What a node adds to allowed IPs: its private addresses, and its routes minus our own. */
    function Contribution(mine: set<Prefix>, id: string): set<Prefix>
      requires id in nodes
    {
      Addresses(nodes[id]) + (Parsed(Exposed(id)) - mine)
    }

    function Contributions(mine: set<Prefix>, ids: set<string>): set<Prefix> {
      set id, p | id in ids && Keyed(id) && p in Contribution(mine, id) :: p
    }
  }

  function Addresses(n: Node): (a: set<Prefix>) {
    (if n.ipv4.Some? then {n.ipv4.value} else {}) + (if n.ipv6.Some? then {n.ipv6.value} else {})
  }

  /** The targets of a node's outgoing edges; `adjacencyMap[id]` of a missing key is a nil map. */
  function Row(adj: AdjacencyMap, id: string): set<string> {
    if id in adj then adj[id].Keys else {}
  }

  function Targets(adj: AdjacencyMap): set<string> {
    set x, y | x in adj && y in adj[x] :: y
  }

  /** The nodes a walk never enters: the asking peer and all of its direct adjacents. */
  function Blocked(adj: AdjacencyMap, me: string): set<string> {
    {me} + Row(adj, me)
  }

  // ---------------------------------------------------------------------------------------------
  // Reachability
  // ---------------------------------------------------------------------------------------------

  /**
   `p` lists the nodes entered by a walk of at least one edge out of `from`: none of them is blocked,
   and all but the last are keyed.
   */
  ghost predicate Trail(mesh: Mesh, adj: AdjacencyMap, blocked: set<string>, from: string, p: seq<string>)
    decreases |p|
  {
    && p != []
    && p[0] in Row(adj, from)
    && p[0] !in blocked
    && (|p| > 1 ==> mesh.Keyed(p[0]) && Trail(mesh, adj, blocked, p[0], p[1..]))
  }

  ghost predicate Reaches(mesh: Mesh, adj: AdjacencyMap, blocked: set<string>, from: string, to: string) {
    exists p :: Trail(mesh, adj, blocked, from, p) && p[|p| - 1] == to
  }

  /** The nodes behind direct adjacent `d` of `me`. */
  ghost function Behind(mesh: Mesh, adj: AdjacencyMap, me: string, d: string): set<string> {
    set x | x in Targets(adj) && Reaches(mesh, adj, Blocked(adj, me), d, x)
  }

  lemma StepReaches(mesh: Mesh, adj: AdjacencyMap, blocked: set<string>, from: string, to: string)
    requires to in Row(adj, from) && to !in blocked
    ensures Reaches(mesh, adj, blocked, from, to)
  {
    var p := [to];
    assert Trail(mesh, adj, blocked, from, p) && p[|p| - 1] == to;
  }

  lemma PrependReaches(mesh: Mesh, adj: AdjacencyMap, blocked: set<string>, from: string, via: string, to: string)
    requires via in Row(adj, from) && via !in blocked && mesh.Keyed(via)
    requires Reaches(mesh, adj, blocked, via, to)
    ensures Reaches(mesh, adj, blocked, from, to)
  {
    var p :| Trail(mesh, adj, blocked, via, p) && p[|p| - 1] == to;
    var q := [via] + p;
    assert q[1..] == p;
    assert Trail(mesh, adj, blocked, from, q) && q[|q| - 1] == to;
  }

  lemma {:induction false} AppendTrail(
    mesh: Mesh, adj: AdjacencyMap, blocked: set<string>, from: string, p: seq<string>, to: string)
    requires Trail(mesh, adj, blocked, from, p) && mesh.Keyed(p[|p| - 1])
    requires to in Row(adj, p[|p| - 1]) && to !in blocked
    ensures Trail(mesh, adj, blocked, from, p + [to])
    decreases |p|
  {
    if |p| == 1 {
      assert (p + [to])[1..] == [to];
    } else {
      AppendTrail(mesh, adj, blocked, p[0], p[1..], to);
      assert (p + [to])[1..] == p[1..] + [to];
    }
  }

  lemma AppendReaches(mesh: Mesh, adj: AdjacencyMap, blocked: set<string>, from: string, via: string, to: string)
    requires Reaches(mesh, adj, blocked, from, via) && mesh.Keyed(via)
    requires to in Row(adj, via) && to !in blocked
    ensures Reaches(mesh, adj, blocked, from, to)
  {
    var p :| Trail(mesh, adj, blocked, from, p) && p[|p| - 1] == via;
    AppendTrail(mesh, adj, blocked, from, p, to);
    assert (p + [to])[|p|] == to;
  }

  lemma {:induction false} TrailEnd(mesh: Mesh, adj: AdjacencyMap, blocked: set<string>, from: string, p: seq<string>)
    requires Trail(mesh, adj, blocked, from, p)
    ensures p[|p| - 1] in Targets(adj) && p[|p| - 1] !in blocked
    decreases |p|
  {
    if |p| > 1 {
      TrailEnd(mesh, adj, blocked, p[0], p[1..]);
    }
  }

  lemma ReachesTarget(mesh: Mesh, adj: AdjacencyMap, blocked: set<string>, from: string, to: string)
    requires Reaches(mesh, adj, blocked, from, to)
    ensures to in Targets(adj) && to !in blocked
  {
    var p :| Trail(mesh, adj, blocked, from, p) && p[|p| - 1] == to;
    TrailEnd(mesh, adj, blocked, from, p);
  }

  /** Every edge out of `id` ends in a blocked or a seen node. */
  ghost predicate Exhausted(adj: AdjacencyMap, blocked: set<string>, seen: set<string>, id: string) {
    Row(adj, id) <= blocked + seen
  }

  /** A seen set whose start and keyed members are exhausted holds everything the start reaches. */
  lemma {:induction false} ClosedHoldsTrail(
    mesh: Mesh, adj: AdjacencyMap, blocked: set<string>, seen: set<string>, from: string, p: seq<string>)
    requires Trail(mesh, adj, blocked, from, p)
    requires Exhausted(adj, blocked, seen, from)
    requires forall x :: x in seen && mesh.Keyed(x) ==> Exhausted(adj, blocked, seen, x)
    ensures p[|p| - 1] in seen
    decreases |p|
  {
    if |p| > 1 {
      ClosedHoldsTrail(mesh, adj, blocked, seen, p[0], p[1..]);
    }
  }

  // ---------------------------------------------------------------------------------------------
  // Routes of one node
  // ---------------------------------------------------------------------------------------------

  /** Networking.GetRoutesByNode. */
  method GetRoutesByNode(mesh: Mesh, id: string) returns (out: seq<Route>)
    ensures forall r :: r in out <==> r in mesh.routes && r.node == id
  {
    out := [];
    for i := 0 to |mesh.routes|
      invariant forall r :: r in out <==> r in mesh.routes[..i] && r.node == id
    {
      if mesh.routes[i].node == id {
        out := out + [mesh.routes[i]];
      }
    }
    assert mesh.routes[..|mesh.routes|] == mesh.routes;
  }

  function CidrsOf(routes: seq<Route>): set<string> {
    set i, j | 0 <= i < |routes| && 0 <= j < |routes[i].cidrs| :: routes[i].cidrs[j]
  }

  lemma ExposedIsCidrsOf(mesh: Mesh, id: string, routes: seq<Route>)
    requires forall r :: r in routes <==> r in mesh.routes && r.node == id
    ensures CidrsOf(routes) == mesh.Exposed(id)
  {
    forall c | c in CidrsOf(routes) ensures c in mesh.Exposed(id) {
      var i, j :| 0 <= i < |routes| && 0 <= j < |routes[i].cidrs| && routes[i].cidrs[j] == c;
      assert routes[i] in routes;
      var k :| 0 <= k < |mesh.routes| && mesh.routes[k] == routes[i];
      assert mesh.routes[k].cidrs[j] == c;
    }
    forall c | c in mesh.Exposed(id) ensures c in CidrsOf(routes) {
      var i, j :| 0 <= i < |mesh.routes| && 0 <= j < |mesh.routes[i].cidrs| && mesh.routes[i].node == id
                  && mesh.routes[i].cidrs[j] == c;
      assert mesh.routes[i] in routes;
      var k :| 0 <= k < |routes| && routes[k] == mesh.routes[i];
      assert routes[k].cidrs[j] == c;
    }
  }

  lemma CidrsOfLast(routes: seq<Route>, i: nat)
    requires i < |routes|
    ensures CidrsOf(routes[..i + 1]) == CidrsOf(routes[..i]) + SetOf(routes[i].cidrs)
  {
    var more := routes[..i + 1];
    forall c | c in CidrsOf(routes[..i]) + SetOf(routes[i].cidrs) ensures c in CidrsOf(more) {
      if c in SetOf(routes[i].cidrs) {
        var j :| 0 <= j < |routes[i].cidrs| && routes[i].cidrs[j] == c;
        assert more[i].cidrs[j] == c;
      } else {
        var k, j :| 0 <= k < i && 0 <= j < |routes[..i][k].cidrs| && routes[..i][k].cidrs[j] == c;
        assert more[k].cidrs[j] == c;
      }
    }
  }

  /** The inner loop: append each parsed CIDR unless it is already there or is one of our routes. */
  method AppendCidrs(mesh: Mesh, mine: set<Prefix>, cidrs: seq<string>, ips: seq<Prefix>)
    returns (r: Option<seq<Prefix>>)
    ensures r.Some? <==> SetOf(cidrs) <= mesh.prefixes.Keys
    ensures r.Some? ==> SetOf(r.value) == SetOf(ips) + (mesh.Parsed(SetOf(cidrs)) - mine)
  {
    var out := ips;
    for j := 0 to |cidrs|
      invariant SetOf(cidrs[..j]) <= mesh.prefixes.Keys
      invariant SetOf(out) == SetOf(ips) + (mesh.Parsed(SetOf(cidrs[..j])) - mine)
    {
      SetOfTake(cidrs, j);
      if cidrs[j] !in mesh.prefixes {
        assert cidrs[j] in SetOf(cidrs);
        return None;
      }
      var prefix := mesh.prefixes[cidrs[j]];
      assert mesh.Parsed(SetOf(cidrs[..j + 1])) == mesh.Parsed(SetOf(cidrs[..j])) + {prefix};
      if prefix !in out && prefix !in mine {
        SetOfAppend(out, prefix);
        out := out + [prefix];
      }
    }
    assert cidrs[..|cidrs|] == cidrs;
    return Some(out);
  }

  /** The route loops shared by recursePeers and recurseEdges. */
  method AppendRoutes(mesh: Mesh, mine: set<Prefix>, id: string, ips: seq<Prefix>) returns (r: Option<seq<Prefix>>)
    ensures r.Some? <==> mesh.RoutesParse(id)
    ensures r.Some? ==> SetOf(r.value) == SetOf(ips) + (mesh.Parsed(mesh.Exposed(id)) - mine)
  {
    var routes := GetRoutesByNode(mesh, id);
    ExposedIsCidrsOf(mesh, id, routes);
    var out := ips;
    for i := 0 to |routes|
      invariant CidrsOf(routes[..i]) <= mesh.prefixes.Keys
      invariant SetOf(out) == SetOf(ips) + (mesh.Parsed(CidrsOf(routes[..i])) - mine)
    {
      CidrsOfLast(routes, i);
      var more := AppendCidrs(mesh, mine, routes[i].cidrs, out);
      if more == None {
        var c :| c in SetOf(routes[i].cidrs) && c !in mesh.prefixes;
        var j :| 0 <= j < |routes[i].cidrs| && routes[i].cidrs[j] == c;
        assert c in CidrsOf(routes);
        return None;
      }
      out := more.value;
      assert mesh.Parsed(CidrsOf(routes[..i + 1]))
          == mesh.Parsed(CidrsOf(routes[..i])) + mesh.Parsed(SetOf(routes[i].cidrs));
    }
    assert routes[..|routes|] == routes;
    return Some(out);
  }

  method AppendAddresses(node: Node, ips: seq<Prefix>) returns (out: seq<Prefix>)
    ensures SetOf(out) == SetOf(ips) + Addresses(node)
  {
    out := ips;
    if node.ipv4.Some? {
      out := out + [node.ipv4.value];
    }
    if node.ipv6.Some? {
      out := out + [node.ipv6.value];
    }
  }

  /** All that one keyed node contributes: its addresses, then its routes. */
  method AppendContribution(mesh: Mesh, mine: set<Prefix>, id: string, ips: seq<Prefix>)
    returns (r: Option<seq<Prefix>>)
    requires mesh.Keyed(id)
    ensures r.Some? <==> !mesh.Bad(id)
    ensures r.Some? ==> SetOf(r.value) == SetOf(ips) + mesh.Contribution(mine, id)
  {
    var addresses := AppendAddresses(mesh.nodes[id], ips);
    r := AppendRoutes(mesh, mine, id, addresses);
  }

  method AppendMissing(more: seq<Prefix>, ips: seq<Prefix>) returns (out: seq<Prefix>)
    ensures SetOf(out) == SetOf(ips) + SetOf(more)
    ensures more == [] ==> out == ips
  {
    out := ips;
    for i := 0 to |more|
      invariant SetOf(out) == SetOf(ips) + SetOf(more[..i])
      invariant more == [] ==> out == ips
    {
      SetOfTake(more, i);
      if more[i] !in out {
        SetOfAppend(out, more[i]);
        out := out + [more[i]];
      }
    }
    assert more[..|more|] == more;
  }

  // ---------------------------------------------------------------------------------------------
  // The walk
  // ---------------------------------------------------------------------------------------------

  /** The `visited` map, shared by reference between all calls of one walk. */
  class Visited {
    var ids: set<string>
    constructor ()
      ensures ids == {}
    {
      ids := {};
    }
  }

  /**
   What a walk out of `node` has established: it grew `before` to `seen` by `node` and by `found`, whose
   members it can reach, are not bad and, when keyed, have been exhausted.
   */
  ghost predicate Walked(mesh: Mesh, adj: AdjacencyMap, blocked: set<string>, node: string,
                         before: set<string>, seen: set<string>, found: set<string>) {
    && seen == before + {node} + found
    && found !! before + {node}
    && (forall x :: x in found ==> Reaches(mesh, adj, blocked, node, x) && !mesh.Bad(x))
    && (forall x :: x in found && mesh.Keyed(x) ==> Exhausted(adj, blocked, seen, x))
  }

  lemma WalkedLeaf(mesh: Mesh, adj: AdjacencyMap, blocked: set<string>, node: string,
                   before: set<string>, seen: set<string>, found: set<string>, target: string)
    requires Walked(mesh, adj, blocked, node, before, seen, found)
    requires target in Row(adj, node) && target !in blocked && target !in seen
    requires target in mesh.nodes && !mesh.Keyed(target)
    ensures Walked(mesh, adj, blocked, node, before, seen + {target}, found + {target})
  {
    StepReaches(mesh, adj, blocked, node, target);
  }

  lemma WalkedSubtree(mesh: Mesh, adj: AdjacencyMap, blocked: set<string>, node: string, before: set<string>,
                      seen: set<string>, found: set<string>, target: string, after: set<string>, deeper: set<string>)
    requires Walked(mesh, adj, blocked, node, before, seen, found)
    requires target in Row(adj, node) && target !in blocked && target !in seen
    requires mesh.Keyed(target) && !mesh.Bad(target)
    requires Walked(mesh, adj, blocked, target, seen + {target}, after, deeper)
    requires Exhausted(adj, blocked, after, target)
    ensures Walked(mesh, adj, blocked, node, before, after, found + {target} + deeper)
  {
    StepReaches(mesh, adj, blocked, node, target);
    forall x | x in deeper ensures Reaches(mesh, adj, blocked, node, x) {
      PrependReaches(mesh, adj, blocked, node, target, x);
    }
  }

  lemma ContributionsGrow(mesh: Mesh, mine: set<Prefix>, found: set<string>, target: string, deeper: set<string>)
    requires mesh.Keyed(target)
    ensures mesh.Contributions(mine, found + {target} + deeper)
         == mesh.Contributions(mine, found) + mesh.Contribution(mine, target) + mesh.Contributions(mine, deeper)
  {
  }

  /**
   recurseEdges. On success the call has exhausted its node and every keyed node it found, found only
   nodes it can reach, and returns exactly what they contribute; `found` names them. It fails only
   because of a bad node that it can reach. It never returns a route.
   */
  method RecurseEdges(mesh: Mesh, adj: AdjacencyMap, me: string, mine: set<Prefix>, node: string, visited: Visited)
    returns (ips: Option<seq<Prefix>>, routes: seq<Prefix>, ghost found: set<string>)
    requires mesh.Indexed()
    modifies visited
    ensures old(visited.ids) <= visited.ids
    ensures routes == []
    ensures ips.Some? ==> Walked(mesh, adj, Blocked(adj, me), node, old(visited.ids), visited.ids, found)
    ensures ips.Some? ==> Exhausted(adj, Blocked(adj, me), visited.ids, node)
    ensures ips.Some? ==> SetOf(ips.value) == mesh.Contributions(mine, found)
    ensures ips.None? ==> exists x :: Reaches(mesh, adj, Blocked(adj, me), node, x) && mesh.Bad(x)
    decreases Targets(adj) - visited.ids
  {
    ghost var blocked := Blocked(adj, me);
    ghost var before := visited.ids;
    visited.ids := visited.ids + {node};
    found, routes := {}, [];
    var out: seq<Prefix> := [];
    var rest := Row(adj, node);
    while rest != {}
      invariant rest <= Row(adj, node) <= rest + blocked + visited.ids
      invariant routes == []
      invariant Walked(mesh, adj, blocked, node, before, visited.ids, found)
      invariant SetOf(out) == mesh.Contributions(mine, found)
      decreases rest
    {
      var target :| target in rest;
      rest := rest - {target};
      if target == me || target in Row(adj, me) || target in visited.ids {
        continue;
      }
      assert target in Targets(adj);
      StepReaches(mesh, adj, blocked, node, target);
      ghost var seen := visited.ids;
      visited.ids := visited.ids + {target};
      if target !in mesh.nodes {
        return None, [], found;
      }
      var targetNode := mesh.nodes[target];
      if targetNode.publicKey == 0 {
        WalkedLeaf(mesh, adj, blocked, node, before, seen, found, target);
        found := found + {target};
        continue;
      }
      var own := AppendContribution(mesh, mine, target, out);
      if own == None {
        return None, [], found;
      }
      var deeper, deeperRoutes, deeperFound := RecurseEdges(mesh, adj, me, mine, target, visited);
      if deeper == None {
        ghost var x :| Reaches(mesh, adj, blocked, target, x) && mesh.Bad(x);
        PrependReaches(mesh, adj, blocked, node, target, x);
        return None, [], found;
      }
      WalkedSubtree(mesh, adj, blocked, node, before, seen, found, target, visited.ids, deeperFound);
      ContributionsGrow(mesh, mine, found, target, deeperFound);
      found := found + {target} + deeperFound;
      out := AppendMissing(deeper.value, own.value);
      routes := AppendMissing(deeperRoutes, routes);
    }
    return Some(out), routes, found;
  }

  /** A completed outermost walk found exactly the nodes behind its start. */
  lemma WalkedAll(mesh: Mesh, adj: AdjacencyMap, me: string, node: string, seen: set<string>, found: set<string>)
    requires Walked(mesh, adj, Blocked(adj, me), node, {}, seen, found)
    requires Exhausted(adj, Blocked(adj, me), seen, node)
    ensures found + {node} == Behind(mesh, adj, me, node) + {node}
  {
    var blocked := Blocked(adj, me);
    forall x | Reaches(mesh, adj, blocked, node, x) ensures x in seen {
      var p :| Trail(mesh, adj, blocked, node, p) && p[|p| - 1] == x;
      ClosedHoldsTrail(mesh, adj, blocked, seen, node, p);
    }
    forall x | x in found ensures x in Behind(mesh, adj, me, node) {
      ReachesTarget(mesh, adj, blocked, node, x);
    }
  }

  /** The nodes whose traffic a direct adjacent carries: itself and everything behind it. */
  ghost function Carried(mesh: Mesh, adj: AdjacencyMap, me: string, d: string): set<string> {
    {d} + Behind(mesh, adj, me, d)
  }

  ghost predicate NoneBad(mesh: Mesh, ids: set<string>) {
    forall x :: x in ids ==> !mesh.Bad(x)
  }

  /** recursePeers, for a direct adjacent with a public key. */
  method RecursePeers(mesh: Mesh, adj: AdjacencyMap, me: string, mine: set<Prefix>, node: string)
    returns (ips: Option<seq<Prefix>>, routes: seq<Prefix>)
    requires mesh.Indexed() && mesh.Keyed(node)
    ensures ips.Some? <==> NoneBad(mesh, Carried(mesh, adj, me, node))
    ensures ips.Some? ==> SetOf(ips.value) == mesh.Contributions(mine, Carried(mesh, adj, me, node))
    ensures routes == []
  {
    var own := AppendContribution(mesh, mine, node, []);
    if own == None {
      assert node in Carried(mesh, adj, me, node) && mesh.Bad(node);
      return None, [];
    }
    var visited := new Visited();
    var deeper, deeperRoutes, found := RecurseEdges(mesh, adj, me, mine, node, visited);
    if deeper == None {
      ghost var x :| Reaches(mesh, adj, Blocked(adj, me), node, x) && mesh.Bad(x);
      ReachesTarget(mesh, adj, Blocked(adj, me), node, x);
      assert x in Carried(mesh, adj, me, node);
      return None, [];
    }
    WalkedAll(mesh, adj, me, node, visited.ids, found);
    ContributionsGrow(mesh, mine, {}, node, found);
    assert {} + {node} + found == Carried(mesh, adj, me, node);
    var out := AppendMissing(deeper.value, own.value);
    routes := AppendMissing(deeperRoutes, []);
    return Some(out), routes;
  }

  datatype WireGuardPeer = WireGuardPeer(
    id: string, publicKey: PublicKey, ipv4: Option<Prefix>, ipv6: Option<Prefix>,
    zone: string, primaryEndpoint: string, endpoints: seq<string>, ice: bool,
    allowedIPs: seq<Prefix>, allowedRoutes: seq<Prefix>)

  /** The node's primary endpoint is a prefix of the i-th WireGuard endpoint. */
  predicate Preferred(node: Node, i: nat)
    requires i < |node.endpoints|
  {
    node.primaryEndpoint != "" && node.primaryEndpoint <= node.endpoints[i]
  }

  /** The first preferred endpoint, the first of all when none is, and nothing when there are none. */
  ghost predicate IsEndpointOf(e: string, node: Node) {
    if node.endpoints == [] then e == ""
    else if exists i :: 0 <= i < |node.endpoints| && Preferred(node, i)
    then exists i :: 0 <= i < |node.endpoints| && Preferred(node, i) && e == node.endpoints[i]
                     && forall j :: 0 <= j < i ==> !Preferred(node, j)
    else e == node.endpoints[0]
  }

  /** The choice is one of the node's endpoints, and starts with the primary one if any of them does. */
  lemma EndpointPrefers(e: string, node: Node, i: nat)
    requires IsEndpointOf(e, node) && i < |node.endpoints|
    ensures e in node.endpoints
    ensures var start := node.primaryEndpoint;
            start != "" && |start| <= |node.endpoints[i]| && node.endpoints[i][..|start|] == start ==>
              |start| <= |e| && e[..|start|] == start
  {
    if node.primaryEndpoint != "" && node.primaryEndpoint <= node.endpoints[i] {
      assert Preferred(node, i);
    }
  }

  method ChooseEndpoint(node: Node) returns (e: string)
    ensures IsEndpointOf(e, node)
  {
    if node.primaryEndpoint != "" {
      for i := 0 to |node.endpoints|
        invariant forall j :: 0 <= j < i ==> !Preferred(node, j)
      {
        if node.primaryEndpoint <= node.endpoints[i] {
          assert Preferred(node, i);
          return node.endpoints[i];
        }
      }
    }
    if |node.endpoints| > 0 {
      return node.endpoints[0];
    }
    return "";
  }

  const ICE_ATTRIBUTE := "EDGE_ATTRIBUTE_ICE"

  predicate IsICE(edge: Edge) {
    ICE_ATTRIBUTE in edge.attributes && edge.attributes[ICE_ATTRIBUTE] == "true"
  }

  /** Our own routes, never sent through a peer. */
  function OwnRoutes(mesh: Mesh, me: string): set<Prefix> {
    mesh.Parsed(mesh.Exposed(me))
  }

  /** No lookup or parse on the way to the answer fails. */
  ghost predicate Computable(mesh: Mesh, adj: AdjacencyMap, me: string) {
    && mesh.RoutesParse(me)
    && forall d :: d in Row(adj, me) ==>
         d in mesh.nodes && (mesh.Keyed(d) ==> NoneBad(mesh, Carried(mesh, adj, me, d)))
  }

  /** `p` is the right answer for the direct adjacent it names. */
  ghost predicate Describes(mesh: Mesh, adj: AdjacencyMap, me: string, p: WireGuardPeer) {
    && p.id in Row(adj, me)
    && mesh.Keyed(p.id)
    && p.publicKey == mesh.nodes[p.id].publicKey
    && p.ipv4 == mesh.nodes[p.id].ipv4
    && p.ipv6 == mesh.nodes[p.id].ipv6
    && p.zone == mesh.nodes[p.id].zone
    && p.endpoints == mesh.nodes[p.id].endpoints
    && IsEndpointOf(p.primaryEndpoint, mesh.nodes[p.id])
    && (p.ice <==> IsICE(adj[me][p.id]))
    && SetOf(p.allowedIPs) == mesh.Contributions(OwnRoutes(mesh, me), Carried(mesh, adj, me, p.id))
    && p.allowedRoutes == []
  }

  /** One right answer for each direct adjacent among `ids` with a public key, and no other. */
  ghost predicate PeersFor(mesh: Mesh, adj: AdjacencyMap, me: string, ids: set<string>, out: seq<WireGuardPeer>) {
    && Right(mesh, adj, me, ids, out)
    && (forall d :: d in ids && mesh.Keyed(d) ==> exists i :: 0 <= i < |out| && out[i].id == d)
  }

  lemma PeersForSkip(mesh: Mesh, adj: AdjacencyMap, me: string, ids: set<string>, out: seq<WireGuardPeer>, d: string)
    requires PeersFor(mesh, adj, me, ids, out) && !mesh.Keyed(d)
    ensures PeersFor(mesh, adj, me, ids + {d}, out)
  {
  }

  /** The answers so far are right and name each adjacent once. */
  ghost predicate Right(mesh: Mesh, adj: AdjacencyMap, me: string, ids: set<string>, out: seq<WireGuardPeer>) {
    && (forall i :: 0 <= i < |out| ==> out[i].id in ids && Describes(mesh, adj, me, out[i]))
    && (forall i, j :: 0 <= i < j < |out| ==> out[i].id != out[j].id)
  }

  lemma RightAdd(mesh: Mesh, adj: AdjacencyMap, me: string, ids: set<string>, out: seq<WireGuardPeer>, p: WireGuardPeer)
    requires Right(mesh, adj, me, ids, out) && p.id !in ids && Describes(mesh, adj, me, p)
    ensures Right(mesh, adj, me, ids + {p.id}, out + [p])
  {
    var more := out + [p];
    forall i | 0 <= i < |more| ensures more[i].id in ids + {p.id} && Describes(mesh, adj, me, more[i]) {
      assert more[i] == if i < |out| then out[i] else p;
    }
  }

  lemma PeersForAdd(mesh: Mesh, adj: AdjacencyMap, me: string, ids: set<string>, out: seq<WireGuardPeer>,
      p: WireGuardPeer)
    requires PeersFor(mesh, adj, me, ids, out) && p.id !in ids && Describes(mesh, adj, me, p)
    ensures PeersFor(mesh, adj, me, ids + {p.id}, out + [p])
  {
    var more := out + [p];
    RightAdd(mesh, adj, me, ids, out, p);
    forall d | d in ids + {p.id} && mesh.Keyed(d) ensures exists i :: 0 <= i < |more| && more[i].id == d {
      if d == p.id {
        assert more[|out|].id == d;
      } else {
        var i :| 0 <= i < |out| && out[i].id == d;
        assert more[i].id == d;
      }
    }
  }

  /** WireGuardPeersFor, on the adjacency map that FilterGraph returned. */
  method WireGuardPeersFor(mesh: Mesh, adj: AdjacencyMap, me: string) returns (r: Option<seq<WireGuardPeer>>)
    requires mesh.Indexed()
    ensures r.Some? <==> Computable(mesh, adj, me)
    ensures r.Some? ==> PeersFor(mesh, adj, me, Row(adj, me), r.value)
  {
    var ourRoutes := AppendRoutes(mesh, {}, me, []);
    if ourRoutes == None {
      return None;
    }
    var mine := SetOf(ourRoutes.value);
    assert mine == OwnRoutes(mesh, me);
    var out: seq<WireGuardPeer> := [];
    var rest := Row(adj, me);
    while rest != {}
      invariant rest <= Row(adj, me)
      invariant forall d :: d in Row(adj, me) - rest ==>
                  d in mesh.nodes && (mesh.Keyed(d) ==> NoneBad(mesh, Carried(mesh, adj, me, d)))
      invariant PeersFor(mesh, adj, me, Row(adj, me) - rest, out)
      decreases rest
    {
      var adjacent :| adjacent in rest;
      ghost var done := Row(adj, me) - rest;
      rest := rest - {adjacent};
      assert Row(adj, me) - rest == done + {adjacent};
      if adjacent !in mesh.nodes {
        return None;
      }
      var node := mesh.nodes[adjacent];
      if node.publicKey == 0 {
        PeersForSkip(mesh, adj, me, done, out, adjacent);
        continue;
      }
      var ips, routes := RecursePeers(mesh, adj, me, mine, adjacent);
      if ips == None {
        return None;
      }
      var endpoint := ChooseEndpoint(node);
      var peer := WireGuardPeer(node.id, node.publicKey, node.ipv4, node.ipv6, node.zone, endpoint, node.endpoints,
                                IsICE(adj[me][adjacent]), ips.value, routes);
      PeersForAdd(mesh, adj, me, done, out, peer);
      out := out + [peer];
    }
    assert Row(adj, me) - {} == Row(adj, me);
    return Some(out);
  }

  // ---------------------------------------------------------------------------------------------
  // Coverage
  // ---------------------------------------------------------------------------------------------

  /** `p` lists the nodes entered by a walk out of `from`, all of them keyed, none of them barred. */
  ghost predicate KeyedWalk(mesh: Mesh, adj: AdjacencyMap, from: string, p: seq<string>)
    decreases |p|
  {
    && p != []
    && p[0] in Row(adj, from)
    && mesh.Keyed(p[0])
    && (|p| > 1 ==> KeyedWalk(mesh, adj, p[0], p[1..]))
  }

  ghost predicate KeyedReaches(mesh: Mesh, adj: AdjacencyMap, from: string, to: string) {
    exists p :: KeyedWalk(mesh, adj, from, p) && p[|p| - 1] == to
  }

  /** Some direct adjacent with a public key carries the node. */
  ghost predicate Covered(mesh: Mesh, adj: AdjacencyMap, me: string, x: string) {
    exists d :: d in Row(adj, me) && mesh.Keyed(d) && x in Carried(mesh, adj, me, d)
  }

  /**
   Path splitting. The rest of a keyed walk continues from `x`, which is `me` or carried by `d`. Each
   time it enters a direct adjacent that one becomes the carrier, so the last one carries the end.
   */
  lemma {:induction false} SplitAtLastAdjacent(mesh: Mesh, adj: AdjacencyMap, me: string, d: string, x: string,
      p: seq<string>)
    requires KeyedWalk(mesh, adj, x, p) && p[|p| - 1] != me
    requires x == me || (d in Row(adj, me) && mesh.Keyed(d) && mesh.Keyed(x) && x in Carried(mesh, adj, me, d))
    ensures Covered(mesh, adj, me, p[|p| - 1])
    decreases |p|
  {
    var z := p[0];
    var carrier := if z in Row(adj, me) then z else d;
    if z !in Row(adj, me) && z != me {
      if x == d {
        StepReaches(mesh, adj, Blocked(adj, me), d, z);
      } else {
        AppendReaches(mesh, adj, Blocked(adj, me), d, x, z);
      }
      ReachesTarget(mesh, adj, Blocked(adj, me), d, z);
    }
    if |p| > 1 {
      SplitAtLastAdjacent(mesh, adj, me, carrier, z, p[1..]);
    }
  }

  lemma {:induction false} TrailIsKeyedWalk(mesh: Mesh, adj: AdjacencyMap, blocked: set<string>, from: string,
      p: seq<string>)
    requires Trail(mesh, adj, blocked, from, p) && mesh.Keyed(p[|p| - 1])
    ensures KeyedWalk(mesh, adj, from, p)
    decreases |p|
  {
    if |p| > 1 {
      TrailIsKeyedWalk(mesh, adj, blocked, p[0], p[1..]);
    }
  }

  /**
   The nodes that some returned peer carries are exactly those reachable through keyed nodes only.
   The asking peer is the one exception: it is carried only over an edge to itself.
   */
  lemma CoverageExact(mesh: Mesh, adj: AdjacencyMap, me: string, x: string)
    requires mesh.Keyed(x)
    ensures Covered(mesh, adj, me, x) <==> KeyedReaches(mesh, adj, me, x) && (x == me ==> me in Row(adj, me))
  {
    if Covered(mesh, adj, me, x) {
      var d :| d in Row(adj, me) && mesh.Keyed(d) && x in Carried(mesh, adj, me, d);
      if x == d {
        assert KeyedWalk(mesh, adj, me, [d]) && [d][|[d]| - 1] == x;
      } else {
        var p :| Trail(mesh, adj, Blocked(adj, me), d, p) && p[|p| - 1] == x;
        TrailIsKeyedWalk(mesh, adj, Blocked(adj, me), d, p);
        TrailEnd(mesh, adj, Blocked(adj, me), d, p);
        var q := [d] + p;
        assert q[1..] == p;
        assert KeyedWalk(mesh, adj, me, q) && q[|q| - 1] == x;
      }
    }
    if KeyedReaches(mesh, adj, me, x) {
      if x == me {
        assert me in Row(adj, me) ==> x in Carried(mesh, adj, me, me);
      } else {
        var p :| KeyedWalk(mesh, adj, me, p) && p[|p| - 1] == x;
        SplitAtLastAdjacent(mesh, adj, me, me, me, p);
      }
    }
  }

  ghost predicate Carries(out: seq<WireGuardPeer>, ip: Prefix) {
    exists i :: 0 <= i < |out| && ip in out[i].allowedIPs
  }

  /** A prefix is in some peer's allowed IPs exactly when a reachable keyed node contributes it. */
  lemma AllowedIPsExact(mesh: Mesh, adj: AdjacencyMap, me: string, out: seq<WireGuardPeer>, ip: Prefix)
    requires PeersFor(mesh, adj, me, Row(adj, me), out)
    ensures Carries(out, ip) <==>
            exists x :: KeyedReaches(mesh, adj, me, x) && (x == me ==> me in Row(adj, me))
                        && mesh.Keyed(x) && ip in mesh.Contribution(OwnRoutes(mesh, me), x)
  {
    var mine := OwnRoutes(mesh, me);
    if Carries(out, ip) {
      var i :| 0 <= i < |out| && ip in out[i].allowedIPs;
      assert ip in SetOf(out[i].allowedIPs);
      assert Describes(mesh, adj, me, out[i]);
      var x :| x in Carried(mesh, adj, me, out[i].id) && mesh.Keyed(x) && ip in mesh.Contribution(mine, x);
      assert Covered(mesh, adj, me, x);
      CoverageExact(mesh, adj, me, x);
    }
    if x :| KeyedReaches(mesh, adj, me, x) && (x == me ==> me in Row(adj, me)) && mesh.Keyed(x)
            && ip in mesh.Contribution(mine, x) {
      CoverageExact(mesh, adj, me, x);
      var d :| d in Row(adj, me) && mesh.Keyed(d) && x in Carried(mesh, adj, me, d);
      var i :| 0 <= i < |out| && out[i].id == d;
      assert Describes(mesh, adj, me, out[i]);
      assert ip in SetOf(out[i].allowedIPs);
    }
  }

  // ---------------------------------------------------------------------------------------------
  // Each peer on its own
  // ---------------------------------------------------------------------------------------------

  /** `p` continues from `from` over edges of the map to nodes with a key, past `me` and all its neighbours. */
  ghost predicate Detour(mesh: Mesh, adj: AdjacencyMap, me: string, from: string, p: seq<string>)
    decreases |p|
  {
    p == [] ||
    (&& from in adj && p[0] in adj[from]
     && p[0] in mesh.nodes && mesh.nodes[p[0]].publicKey != 0
     && p[0] != me && !(me in adj && p[0] in adj[me])
     && Detour(mesh, adj, me, p[0], p[1..]))
  }

  function EndOf(from: string, p: seq<string>): string {
    if p == [] then from else p[|p| - 1]
  }

  /** Some route of the node has a CIDR that parses to the prefix. */
  ghost predicate RoutesTo(mesh: Mesh, node: string, ip: Prefix) {
    exists i, j :: 0 <= i < |mesh.routes| && 0 <= j < |mesh.routes[i].cidrs| && mesh.routes[i].node == node
                   && mesh.routes[i].cidrs[j] in mesh.prefixes && mesh.prefixes[mesh.routes[i].cidrs[j]] == ip
  }

  /** The prefix is an address of the node, or one of its routes and none of ours. */
  ghost predicate Supplies(mesh: Mesh, me: string, node: string, ip: Prefix) {
    && node in mesh.nodes
    && (|| mesh.nodes[node].ipv4 == Some(ip) || mesh.nodes[node].ipv6 == Some(ip)
        || (RoutesTo(mesh, node, ip) && !RoutesTo(mesh, me, ip)))
  }

  lemma RoutesToParsed(mesh: Mesh, node: string, ip: Prefix)
    ensures RoutesTo(mesh, node, ip) <==> ip in mesh.Parsed(mesh.Exposed(node))
  {
    if ip in mesh.Parsed(mesh.Exposed(node)) {
      var c :| c in mesh.Exposed(node) && c in mesh.prefixes && mesh.prefixes[c] == ip;
      var i, j :| 0 <= i < |mesh.routes| && 0 <= j < |mesh.routes[i].cidrs| && mesh.routes[i].node == node
                  && mesh.routes[i].cidrs[j] == c;
    }
    if RoutesTo(mesh, node, ip) {
      var i, j :| 0 <= i < |mesh.routes| && 0 <= j < |mesh.routes[i].cidrs| && mesh.routes[i].node == node
                  && mesh.routes[i].cidrs[j] in mesh.prefixes && mesh.prefixes[mesh.routes[i].cidrs[j]] == ip;
      assert mesh.routes[i].cidrs[j] in mesh.Exposed(node);
    }
  }

  lemma SuppliesContribution(mesh: Mesh, me: string, node: string, ip: Prefix)
    requires node in mesh.nodes
    ensures Supplies(mesh, me, node, ip) <==> ip in mesh.Contribution(OwnRoutes(mesh, me), node)
  {
    RoutesToParsed(mesh, node, ip);
    RoutesToParsed(mesh, me, ip);
  }

  lemma {:induction false} TrailIsDetour(mesh: Mesh, adj: AdjacencyMap, me: string, from: string, p: seq<string>)
    requires p != []
    ensures Trail(mesh, adj, Blocked(adj, me), from, p) && mesh.Keyed(p[|p| - 1]) <==> Detour(mesh, adj, me, from, p)
    decreases |p|
  {
    if |p| > 1 {
      TrailIsDetour(mesh, adj, me, p[0], p[1..]);
    } else {
      assert p[1..] == [];
    }
  }

  /** What a direct adjacent carries, told by detours. */
  lemma CarriedByDetour(mesh: Mesh, adj: AdjacencyMap, me: string, d: string, x: string)
    requires mesh.Keyed(d)
    ensures mesh.Keyed(x) && x in Carried(mesh, adj, me, d) <==>
            exists p :: Detour(mesh, adj, me, d, p) && EndOf(d, p) == x
  {
    if mesh.Keyed(x) && x in Carried(mesh, adj, me, d) {
      if x == d {
        assert Detour(mesh, adj, me, d, []) && EndOf(d, []) == x;
      } else {
        var p :| Trail(mesh, adj, Blocked(adj, me), d, p) && p[|p| - 1] == x;
        TrailIsDetour(mesh, adj, me, d, p);
        assert EndOf(d, p) == x;
      }
    }
    if p :| Detour(mesh, adj, me, d, p) && EndOf(d, p) == x {
      if p != [] {
        TrailIsDetour(mesh, adj, me, d, p);
        TrailEnd(mesh, adj, Blocked(adj, me), d, p);
      }
    }
  }

  /**
   The allowed IPs of each single peer: exactly what is supplied by the ends of detours from it, which
   lead through nodes with a key and past the asking peer and every one of its neighbours.
   */
  lemma PeerCarriesExact(mesh: Mesh, adj: AdjacencyMap, me: string, out: seq<WireGuardPeer>, i: nat, ip: Prefix)
    requires PeersFor(mesh, adj, me, Row(adj, me), out) && i < |out|
    ensures ip in out[i].allowedIPs <==>
            exists p :: Detour(mesh, adj, me, out[i].id, p) && Supplies(mesh, me, EndOf(out[i].id, p), ip)
  {
    var d, mine := out[i].id, OwnRoutes(mesh, me);
    assert Describes(mesh, adj, me, out[i]);
    assert ip in out[i].allowedIPs <==> ip in SetOf(out[i].allowedIPs);
    if ip in out[i].allowedIPs {
      var x :| x in Carried(mesh, adj, me, d) && mesh.Keyed(x) && ip in mesh.Contribution(mine, x);
      CarriedByDetour(mesh, adj, me, d, x);
      SuppliesContribution(mesh, me, x, ip);
      var p :| Detour(mesh, adj, me, d, p) && EndOf(d, p) == x;
    }
    if p :| Detour(mesh, adj, me, d, p) && Supplies(mesh, me, EndOf(d, p), ip) {
      CarriedByDetour(mesh, adj, me, d, EndOf(d, p));
      SuppliesContribution(mesh, me, EndOf(d, p), ip);
    }
  }

  /** What else a peer is told about, from the node's record and the edge to it. */
  lemma PeerFields(mesh: Mesh, adj: AdjacencyMap, me: string, out: seq<WireGuardPeer>, i: nat)
    requires PeersFor(mesh, adj, me, Row(adj, me), out) && i < |out|
    ensures me in adj && out[i].id in adj[me] && out[i].id in mesh.nodes
    ensures var p, node, attributes := out[i], mesh.nodes[out[i].id], adj[me][out[i].id].attributes;
            && p.publicKey == node.publicKey && p.ipv4 == node.ipv4 && p.ipv6 == node.ipv6
            && p.zone == node.zone && p.endpoints == node.endpoints && p.allowedRoutes == []
            && (p.ice <==> "EDGE_ATTRIBUTE_ICE" in attributes && attributes["EDGE_ATTRIBUTE_ICE"] == "true")
  {
    assert Describes(mesh, adj, me, out[i]);
  }

  /** The peers are exactly the neighbours of the asking peer that have a key. */
  lemma PeersAreKeyedNeighbours(mesh: Mesh, adj: AdjacencyMap, me: string, out: seq<WireGuardPeer>, d: string)
    requires PeersFor(mesh, adj, me, Row(adj, me), out)
    ensures (exists i :: 0 <= i < |out| && out[i].id == d) <==>
            me in adj && d in adj[me] && d in mesh.nodes && mesh.nodes[d].publicKey != 0
  {
    if i :| 0 <= i < |out| && out[i].id == d {
      assert Describes(mesh, adj, me, out[i]);
    }
  }
}
