/**
 Cutting the mesh graph by network ACLs (FilterGraph in pkg/meshdb/networking/networking.go), and what
 the cut means for the peers computed from it.

 Rows of the adjacency map are Go maps, hence references: the result shares the asking node's row with
 the input and allocates every other one.
 */
module GraphFilter {
  import opened Wrappers
  import opened MeshData
  import opened NetworkAcls
  import opened MeshRouting
  import opened Wildcards

  class AdjacencyRow {
    var edges: map<string, Edge>
    constructor (edges: map<string, Edge>)
      ensures this.edges == edges
    {
      this.edges := edges;
    }
  }

  function Direct(me: string, node: string): NetworkAction {
    NetworkAction(me, node, "", "", "", 0)
  }

  function ViaRoute(me: string, node: string, cidr: string): NetworkAction {
    NetworkAction(me, node, "", cidr, "", 0)
  }

  /** The policy lets `me` talk to the node and to every CIDR of every route the node exposes. */
  predicate Admitted(groups: Groups, acls: seq<Acl>, mesh: Mesh, me: string, node: string) {
    && PureAccept(groups, acls, Direct(me, node))
    && forall cidr :: cidr in mesh.Exposed(node) ==> PureAccept(groups, acls, ViaRoute(me, node, cidr))
  }

  function Kept(groups: Groups, acls: seq<Acl>, mesh: Mesh, me: string, ids: set<string>): set<string> {
    set p | p in ids && (p == me || Admitted(groups, acls, mesh, me, p))
  }

  function Restrict(edges: map<string, Edge>, keep: set<string>): map<string, Edge> {
    map p | p in edges && p in keep :: edges[p]
  }

  /** The row of a node as the policy wants it; the asking node's own is left as it was. */
  function PolicyRow(groups: Groups, acls: seq<Acl>, mesh: Mesh, me: string, full: AdjacencyMap,
      k: string): map<string, Edge> {
    if k !in full then map[]
    else if k == me then full[k]
    else Restrict(full[k], Kept(groups, acls, mesh, me, full[k].Keys))
  }

  /** The cut as a function of values. */
  function Filtered(groups: Groups, acls: seq<Acl>, mesh: Mesh, full: AdjacencyMap, me: string): AdjacencyMap {
    map k | k in Kept(groups, acls, mesh, me, full.Keys) + {me} :: PolicyRow(groups, acls, mesh, me, full, k)
  }

  function Contents(rows: map<string, AdjacencyRow?>): AdjacencyMap
    reads rows.Values
  {
    map k | k in rows :: if rows[k] == null then map[] else rows[k].edges
  }

  // ---------------------------------------------------------------------------------------------
  // What the evaluations said
  // ---------------------------------------------------------------------------------------------

  /** Some evaluation in the log asked for the action and got the answer. */
  ghost predicate Said(log: seq<Scan>, a: NetworkAction, b: bool) {
    exists s :: s in log && s.action == a && s.answer == b
  }

  /** Yes to each CIDR. */
  ghost predicate SaidYes(log: seq<Scan>, me: string, node: string, cidrs: set<string>) {
    forall c :: c in cidrs ==> Said(log, ViaRoute(me, node, c), true)
  }

  /** No to some CIDR. */
  ghost predicate SaidNo(log: seq<Scan>, me: string, node: string, cidrs: set<string>) {
    exists c :: c in cidrs && Said(log, ViaRoute(me, node, c), false)
  }

  /** The ACLs said yes to the node and to every CIDR of every route it exposes. */
  ghost predicate Passes(log: seq<Scan>, mesh: Mesh, me: string, node: string) {
    Said(log, Direct(me, node), true) && SaidYes(log, me, node, mesh.Exposed(node))
  }

  /** The ACLs said no to the node, or to some CIDR of some route it exposes. */
  ghost predicate Fails(log: seq<Scan>, mesh: Mesh, me: string, node: string) {
    Said(log, Direct(me, node), false) || SaidNo(log, me, node, mesh.Exposed(node))
  }

  ghost predicate Verdict(log: seq<Scan>, mesh: Mesh, me: string, node: string, b: bool) {
    if b then Passes(log, mesh, me, node) else Fails(log, mesh, me, node)
  }

  lemma SaidLater(log: seq<Scan>, log': seq<Scan>, a: NetworkAction, b: bool)
    requires log <= log' && Said(log, a, b)
    ensures Said(log', a, b)
  {
    var s :| s in log && s.action == a && s.answer == b;
    assert s in log';
  }

  lemma VerdictLater(log: seq<Scan>, log': seq<Scan>, mesh: Mesh, me: string, node: string, b: bool)
    requires log <= log' && Verdict(log, mesh, me, node, b)
    ensures Verdict(log', mesh, me, node, b)
  {
    forall a, b | Said(log, a, b) ensures Said(log', a, b) {
      SaidLater(log, log', a, b);
    }
  }

  /** Of the IDs, exactly those are kept that are `me` or that the ACLs said yes to. */
  ghost predicate Sifted(log: seq<Scan>, mesh: Mesh, me: string, ids: set<string>, kept: set<string>) {
    kept <= ids && forall p :: p in ids ==> (p == me && p in kept) || (p != me && Verdict(log, mesh, me, p, p in kept))
  }

  lemma SiftedLater(log: seq<Scan>, log': seq<Scan>, mesh: Mesh, me: string, ids: set<string>, kept: set<string>)
    requires log <= log' && Sifted(log, mesh, me, ids, kept)
    ensures Sifted(log', mesh, me, ids, kept)
  {
    forall p | p in ids && p != me ensures Verdict(log', mesh, me, p, p in kept) {
      VerdictLater(log, log', mesh, me, p, p in kept);
    }
  }

  lemma SiftedNext(
    log: seq<Scan>, log': seq<Scan>, mesh: Mesh, me: string, ids: set<string>, kept: set<string>, p: string, b: bool)
    requires log <= log' && Sifted(log, mesh, me, ids, kept) && p !in ids
    requires if p == me then b else Verdict(log', mesh, me, p, b)
    ensures Sifted(log', mesh, me, ids + {p}, if b then kept + {p} else kept)
  {
    SiftedLater(log, log', mesh, me, ids, kept);
  }

  /** The row holds exactly the kept edges. */
  ghost predicate RowCut(log: seq<Scan>, mesh: Mesh, me: string, edges: map<string, Edge>, row: map<string, Edge>) {
    Sifted(log, mesh, me, edges.Keys, row.Keys) && row == Restrict(edges, row.Keys)
  }

  /**
   The cut that the log justifies, whatever the groups are: the asking node has its own row in full, the
   other nodes of the full map are sifted, and so is the row of each that stays.
   */
  ghost predicate CutBy(log: seq<Scan>, mesh: Mesh, full: AdjacencyMap, me: string, adj: AdjacencyMap) {
    && me in adj && adj[me] == (if me in full then full[me] else map[])
    && Sifted(log, mesh, me, full.Keys - {me}, adj.Keys - {me})
    && forall k :: k in adj && k != me ==> k in full && RowCut(log, mesh, me, full[k], adj[k])
  }

  // ---------------------------------------------------------------------------------------------
  // The method
  // ---------------------------------------------------------------------------------------------

  /** The last evaluation asked for the action. */
  lemma SaidLast(log: seq<Scan>, a: NetworkAction, b: bool)
    requires log != [] && log[|log| - 1].action == a && log[|log| - 1].answer == b
    ensures Said(log, a, b)
  {
    assert log[|log| - 1] in log;
  }

  lemma SaidYesNext(
    log: seq<Scan>, log': seq<Scan>, me: string, node: string, cidrs: set<string>, more: set<string>)
    requires log <= log' && SaidYes(log, me, node, cidrs) && SaidYes(log', me, node, more)
    ensures SaidYes(log', me, node, cidrs + more)
  {
    forall c | c in cidrs ensures Said(log', ViaRoute(me, node, c), true) {
      SaidLater(log, log', ViaRoute(me, node, c), true);
    }
  }

  method AdmitsCidrs(groups: Groups, acls: ACLs, me: string, node: string, cidrs: seq<string>, ghost start: seq<Acl>)
    returns (b: bool)
    requires acls.Tracks(groups, start)
    modifies acls
    ensures acls.Tracks(groups, start) && old(acls.log) <= acls.log
    ensures if b then SaidYes(acls.log, me, node, SetOf(cidrs)) else SaidNo(acls.log, me, node, SetOf(cidrs))
  {
    for j := 0 to |cidrs|
      invariant acls.Tracks(groups, start) && old(acls.log) <= acls.log
      invariant SaidYes(acls.log, me, node, SetOf(cidrs[..j]))
    {
      ghost var before := acls.log;
      b := acls.Accept(groups, ViaRoute(me, node, cidrs[j]), start);
      SaidLast(acls.log, ViaRoute(me, node, cidrs[j]), b);
      if !b {
        assert cidrs[j] in SetOf(cidrs);
        return;
      }
      SetOfTake(cidrs, j);
      SaidYesNext(before, acls.log, me, node, SetOf(cidrs[..j]), {cidrs[j]});
    }
    assert cidrs[..|cidrs|] == cidrs;
    b := true;
  }

  /** The route loops of FilterGraph. */
  method AdmitsRoutes(groups: Groups, acls: ACLs, mesh: Mesh, me: string, node: string, ghost start: seq<Acl>)
    returns (b: bool)
    requires acls.Tracks(groups, start)
    modifies acls
    ensures acls.Tracks(groups, start) && old(acls.log) <= acls.log
    ensures if b then SaidYes(acls.log, me, node, mesh.Exposed(node))
            else SaidNo(acls.log, me, node, mesh.Exposed(node))
  {
    var routes := GetRoutesByNode(mesh, node);
    ExposedIsCidrsOf(mesh, node, routes);
    for i := 0 to |routes|
      invariant acls.Tracks(groups, start) && old(acls.log) <= acls.log
      invariant SaidYes(acls.log, me, node, CidrsOf(routes[..i]))
    {
      ghost var before := acls.log;
      b := AdmitsCidrs(groups, acls, me, node, routes[i].cidrs, start);
      if !b {
        CidrsOfPart(routes, i);
        return;
      }
      CidrsOfLast(routes, i);
      SaidYesNext(before, acls.log, me, node, CidrsOf(routes[..i]), SetOf(routes[i].cidrs));
    }
    assert routes[..|routes|] == routes;
    b := true;
  }

  /** The checks that FilterGraph makes on a node: direct communication, then each exposed CIDR. */
  method Admits(groups: Groups, acls: ACLs, mesh: Mesh, me: string, node: string, ghost start: seq<Acl>)
    returns (b: bool)
    requires acls.Tracks(groups, start)
    modifies acls
    ensures acls.Tracks(groups, start) && old(acls.log) <= acls.log
    ensures Verdict(acls.log, mesh, me, node, b)
  {
    b := acls.Accept(groups, Direct(me, node), start);
    SaidLast(acls.log, Direct(me, node), b);
    if b {
      ghost var asked := acls.log;
      b := AdmitsRoutes(groups, acls, mesh, me, node, start);
      SaidLater(asked, acls.log, Direct(me, node), true);
    }
  }

  lemma CidrsOfPart(routes: seq<Route>, i: nat)
    requires i < |routes|
    ensures SetOf(routes[i].cidrs) <= CidrsOf(routes)
  {
    forall c | c in SetOf(routes[i].cidrs) ensures c in CidrsOf(routes) {
      var j :| 0 <= j < |routes[i].cidrs| && routes[i].cidrs[j] == c;
    }
  }

  lemma RestrictGrows(row: map<string, Edge>, edges: map<string, Edge>, kept: set<string>, peer: string)
    requires peer in edges
    ensures (row + Restrict(edges, kept))[peer := edges[peer]] == row + Restrict(edges, kept + {peer})
  {
  }

  /** The second loop for one node: copy the edges to `me` and to admitted peers into the node's row. */
  method FillRow(groups: Groups, acls: ACLs, mesh: Mesh, me: string, edges: map<string, Edge>,
                 row: AdjacencyRow, ghost start: seq<Acl>) returns (ghost kept: set<string>)
    requires acls.Tracks(groups, start)
    modifies row, acls
    ensures acls.Tracks(groups, start) && old(acls.log) <= acls.log
    ensures Sifted(acls.log, mesh, me, edges.Keys, kept) && row.edges == old(row.edges) + Restrict(edges, kept)
  {
    kept := {};
    var rest := edges.Keys;
    while rest != {}
      invariant rest <= edges.Keys && acls.Tracks(groups, start) && old(acls.log) <= acls.log
      invariant row.edges == old(row.edges) + Restrict(edges, kept)
      invariant Sifted(acls.log, mesh, me, edges.Keys - rest, kept)
      decreases rest
    {
      var peer :| peer in rest;
      ghost var before, done := acls.log, edges.Keys - rest;
      rest := rest - {peer};
      var keep := true;
      if peer != me {
        keep := Admits(groups, acls, mesh, me, peer, start);
      }
      SiftedNext(before, acls.log, mesh, me, done, kept, peer, keep);
      assert edges.Keys - rest == done + {peer};
      if keep {
        RestrictGrows(old(row.edges), edges, kept, peer);
        row.edges := row.edges[peer := edges[peer]];
        kept := kept + {peer};
      }
    }
    assert edges.Keys - rest == edges.Keys;
  }

  /** The first loop: the nodes that get a row of their own. */
  method SelectNodes(groups: Groups, acls: ACLs, mesh: Mesh, me: string, ids: set<string>, ghost start: seq<Acl>)
    returns (nodes: set<string>)
    requires acls.Tracks(groups, start)
    modifies acls
    ensures acls.Tracks(groups, start) && old(acls.log) <= acls.log
    ensures Sifted(acls.log, mesh, me, ids - {me}, nodes)
  {
    nodes := {};
    var rest := ids;
    while rest != {}
      invariant rest <= ids && acls.Tracks(groups, start) && old(acls.log) <= acls.log
      invariant Sifted(acls.log, mesh, me, ids - rest - {me}, nodes)
      decreases rest
    {
      var node :| node in rest;
      ghost var before, done := acls.log, ids - rest - {me};
      rest := rest - {node};
      if node == me {
        assert ids - rest - {me} == done;
        continue;
      }
      var admitted := Admits(groups, acls, mesh, me, node, start);
      SiftedNext(before, acls.log, mesh, me, done, nodes, node, admitted);
      assert ids - rest - {me} == done + {node};
      if admitted {
        nodes := nodes + {node};
      }
    }
    assert ids - rest - {me} == ids - {me};
  }

  /** The rows hold what they held. */
  ghost predicate Intact(rows: map<string, AdjacencyRow>, contents: AdjacencyMap)
    reads set k | k in rows :: rows[k]
  {
    rows.Keys == contents.Keys && forall k :: k in rows ==> rows[k].edges == contents[k]
  }

  lemma OwnRowAbsorbs(edges: map<string, Edge>, kept: set<string>)
    ensures edges + Restrict(edges, kept) == edges
    ensures map[] + Restrict(edges, kept) == Restrict(edges, kept)
  {
  }

  /** The second loop for the asking node: its row is the full map's, and gets back edges that are there. */
  method FillOwn(groups: Groups, acls: ACLs, mesh: Mesh, me: string, row: AdjacencyRow, ghost start: seq<Acl>)
    requires acls.Tracks(groups, start)
    modifies acls, row
    ensures acls.Tracks(groups, start) && old(acls.log) <= acls.log && row.edges == old(row.edges)
  {
    ghost var edges := row.edges;
    var kept := FillRow(groups, acls, mesh, me, row.edges, row, start);
    OwnRowAbsorbs(edges, kept);
  }

  /** The second loop for any other node, whose row starts out empty. */
  method FillNode(groups: Groups, acls: ACLs, mesh: Mesh, me: string, edges: map<string, Edge>, ghost start: seq<Acl>)
    returns (row: map<string, Edge>)
    requires acls.Tracks(groups, start)
    modifies acls
    ensures acls.Tracks(groups, start) && old(acls.log) <= acls.log
    ensures RowCut(acls.log, mesh, me, edges, row)
  {
    var filled := new AdjacencyRow(map[]);
    var kept := FillRow(groups, acls, mesh, me, edges, filled, start);
    OwnRowAbsorbs(edges, kept);
    assert Restrict(edges, kept).Keys == kept;
    row := filled.edges;
  }

  ghost predicate Filled(log: seq<Scan>, mesh: Mesh, me: string, contents: AdjacencyMap, held: AdjacencyMap) {
    forall k :: k in held ==> k in contents && RowCut(log, mesh, me, contents[k], held[k])
  }

  lemma FilledLater(log: seq<Scan>, log': seq<Scan>, mesh: Mesh, me: string, contents: AdjacencyMap, held: AdjacencyMap)
    requires log <= log' && Filled(log, mesh, me, contents, held)
    ensures Filled(log', mesh, me, contents, held)
  {
    forall k | k in held ensures RowCut(log', mesh, me, contents[k], held[k]) {
      SiftedLater(log, log', mesh, me, contents[k].Keys, held[k].Keys);
    }
  }

  lemma FilledNext(log: seq<Scan>, log': seq<Scan>, mesh: Mesh, me: string, contents: AdjacencyMap, held: AdjacencyMap,
                   node: string, row: map<string, Edge>)
    requires log <= log' && Filled(log, mesh, me, contents, held)
    requires node in contents && RowCut(log', mesh, me, contents[node], row)
    ensures Filled(log', mesh, me, contents, held[node := row])
  {
    FilledLater(log, log', mesh, me, contents, held);
  }

  /** The second loop: what the rows of the nodes hold in the end; the own row is filled in place. */
  method FillRows(groups: Groups, acls: ACLs, mesh: Mesh, me: string, full: map<string, AdjacencyRow>,
                  nodes: set<string>, ghost start: seq<Acl>, ghost contents: AdjacencyMap)
    returns (held: AdjacencyMap)
    requires acls.Tracks(groups, start) && Intact(full, contents) && nodes <= full.Keys
    modifies acls, if me in full then {full[me]} else {}
    ensures acls.Tracks(groups, start) && old(acls.log) <= acls.log && Intact(full, contents)
    ensures held.Keys == nodes - {me} && Filled(acls.log, mesh, me, contents, held)
  {
    held := map[];
    var rest := nodes;
    while rest != {}
      invariant rest <= nodes && held.Keys == nodes - rest - {me}
      invariant acls.Tracks(groups, start) && old(acls.log) <= acls.log && Intact(full, contents)
      invariant Filled(acls.log, mesh, me, contents, held)
      decreases rest
    {
      var node :| node in rest;
      rest := rest - {node};
      ghost var log := acls.log;
      if node == me {
        FillOwn(groups, acls, mesh, me, full[me], start);
        FilledLater(log, acls.log, mesh, me, contents, held);
      } else {
        var row := FillNode(groups, acls, mesh, me, full[node].edges, start);
        FilledNext(log, acls.log, mesh, me, contents, held, node, row);
        held := held[node := row];
      }
    }
  }

  /** Both loops. */
  method CutRows(groups: Groups, acls: ACLs, mesh: Mesh, full: map<string, AdjacencyRow>, me: string,
                 ghost start: seq<Acl>, ghost contents: AdjacencyMap) returns (held: AdjacencyMap)
    requires acls.Tracks(groups, start) && Intact(full, contents)
    modifies acls, if me in full then {full[me]} else {}
    ensures acls.Tracks(groups, start) && Intact(full, contents) && me !in held
    ensures CutBy(acls.log, mesh, contents, me, WithOwn(held, contents, me))
  {
    var nodes := SelectNodes(groups, acls, mesh, me, full.Keys, start);
    ghost var selected, log := nodes, acls.log;
    if me in full {
      nodes := nodes + {me};
    }
    assert nodes - {me} == selected;
    held := FillRows(groups, acls, mesh, me, full, nodes, start, contents);
    SiftedLater(log, acls.log, mesh, me, full.Keys - {me}, selected);
    FilledIsCut(acls.log, mesh, contents, me, held);
  }

  /** The result: the full map's own row, or nil if it has none, beside newly allocated ones. */
  method Share(held: AdjacencyMap, full: map<string, AdjacencyRow>, me: string)
    returns (filtered: map<string, AdjacencyRow?>)
    requires me !in held
    ensures filtered.Keys == held.Keys + {me} && filtered[me] == if me in full then full[me] else null
    ensures forall k :: k in held ==> fresh(filtered[k]) && filtered[k] != null && filtered[k].edges == held[k]
  {
    filtered := map[me := if me in full then full[me] else null];
    var rest := held.Keys;
    while rest != {}
      invariant rest <= held.Keys && filtered.Keys == held.Keys - rest + {me}
      invariant filtered[me] == if me in full then full[me] else null
      invariant forall k :: k in held.Keys - rest ==>
                  fresh(filtered[k]) && filtered[k] != null && filtered[k].edges == held[k]
      decreases rest
    {
      var node :| node in rest;
      rest := rest - {node};
      var row := new AdjacencyRow(held[node]);
      filtered := filtered[node := row];
    }
  }

  /**
   FilterGraph, on the ACLs as they are listed. For any groups the log of its evaluations justifies the
   cut; when no group leads to another one, the cut is the one that the policy wants.
   */
  method FilterGraph(groups: Groups, listed: seq<Acl>, mesh: Mesh, full: map<string, AdjacencyRow>, me: string)
    returns (filtered: map<string, AdjacencyRow?>, ghost log: seq<Scan>)
    modifies if me in full then {full[me]} else {}
    ensures forall k :: k in full ==> full[k].edges == old(full[k].edges)
    ensures me in filtered && filtered[me] == if me in full then full[me] else null
    ensures forall k :: k in filtered && k != me ==> fresh(filtered[k])
    ensures Honest(groups, listed, log) && CutBy(log, mesh, old(Contents(full)), me, Contents(filtered))
    ensures FlatAcls(groups, listed) ==> Contents(filtered) == Filtered(groups, listed, mesh, old(Contents(full)), me)
  {
    var acls := new ACLs(listed);
    ghost var contents := Contents(full);
    var held := CutRows(groups, acls, mesh, full, me, listed, contents);
    log := acls.log;
    filtered := Share(held, full, me);
    ContentsAre(filtered, full, me, held, contents);
    if FlatAcls(groups, listed) {
      CutIsFiltered(groups, listed, log, mesh, contents, me, Contents(filtered));
    }
  }

  lemma ContentsAre(filtered: map<string, AdjacencyRow?>, full: map<string, AdjacencyRow>, me: string,
                    held: AdjacencyMap, contents: AdjacencyMap)
    requires filtered.Keys == held.Keys + {me} && me !in held && Intact(full, contents)
    requires filtered[me] == if me in full then full[me] else null
    requires forall k :: k in held ==> filtered[k] != null && filtered[k].edges == held[k]
    ensures Contents(filtered) == WithOwn(held, contents, me)
  {
    assert Contents(filtered).Keys == WithOwn(held, contents, me).Keys;
  }

  function WithOwn(held: AdjacencyMap, contents: AdjacencyMap, me: string): AdjacencyMap {
    held[me := if me in contents then contents[me] else map[]]
  }

  lemma FilledIsCut(log: seq<Scan>, mesh: Mesh, contents: AdjacencyMap, me: string, held: AdjacencyMap)
    requires me !in held && Sifted(log, mesh, me, contents.Keys - {me}, held.Keys)
    requires Filled(log, mesh, me, contents, held)
    ensures CutBy(log, mesh, contents, me, WithOwn(held, contents, me))
  {
    assert WithOwn(held, contents, me).Keys - {me} == held.Keys;
  }

  /** On a flat list what the ACLs said is what they mean. */
  lemma VerdictIsAdmitted(groups: Groups, start: seq<Acl>, log: seq<Scan>, mesh: Mesh, me: string, node: string,
      b: bool)
    requires FlatAcls(groups, start) && Honest(groups, start, log) && Verdict(log, mesh, me, node, b)
    ensures b == Admitted(groups, start, mesh, me, node)
  {
    HonestAnswers(groups, start, log);
  }

  lemma SiftedIsKept(
    groups: Groups, start: seq<Acl>, log: seq<Scan>, mesh: Mesh, me: string, ids: set<string>, kept: set<string>)
    requires FlatAcls(groups, start) && Honest(groups, start, log) && Sifted(log, mesh, me, ids, kept)
    ensures kept == Kept(groups, start, mesh, me, ids)
  {
    forall p | p in ids && p != me ensures p in kept <==> Admitted(groups, start, mesh, me, p) {
      VerdictIsAdmitted(groups, start, log, mesh, me, p, p in kept);
    }
  }

  lemma CutIsFiltered(
    groups: Groups, start: seq<Acl>, log: seq<Scan>, mesh: Mesh, full: AdjacencyMap, me: string, adj: AdjacencyMap)
    requires FlatAcls(groups, start) && Honest(groups, start, log) && CutBy(log, mesh, full, me, adj)
    ensures adj == Filtered(groups, start, mesh, full, me)
  {
    SiftedIsKept(groups, start, log, mesh, me, full.Keys - {me}, adj.Keys - {me});
    assert adj.Keys == adj.Keys - {me} + {me};
    assert Kept(groups, start, mesh, me, full.Keys) + {me} == Kept(groups, start, mesh, me, full.Keys - {me}) + {me};
    forall k | k in adj ensures adj[k] == PolicyRow(groups, start, mesh, me, full, k) {
      if k != me {
        SiftedIsKept(groups, start, log, mesh, me, full[k].Keys, adj[k].Keys);
      }
    }
  }

  // ---------------------------------------------------------------------------------------------
  // Policy, end to end
  // ---------------------------------------------------------------------------------------------

  /** WireGuardPeersFor as called: filter the graph, then walk the cut, named `adj`. */
  method FilteredPeersFor(groups: Groups, listed: seq<Acl>, mesh: Mesh, full: map<string, AdjacencyRow>, me: string)
    returns (r: Option<seq<WireGuardPeer>>, ghost log: seq<Scan>, ghost adj: AdjacencyMap)
    requires mesh.Indexed()
    modifies if me in full then {full[me]} else {}
    ensures forall k :: k in full ==> full[k].edges == old(full[k].edges)
    ensures Honest(groups, listed, log) && CutBy(log, mesh, old(Contents(full)), me, adj)
    ensures FlatAcls(groups, listed) ==> adj == Filtered(groups, listed, mesh, old(Contents(full)), me)
    ensures r.Some? <==> Computable(mesh, adj, me)
    ensures r.Some? ==> PeersFor(mesh, adj, me, Row(adj, me), r.value)
  {
    var filtered, evaluated := FilterGraph(groups, listed, mesh, full, me);
    log, adj := evaluated, Contents(filtered);
    r := WireGuardPeersFor(mesh, Contents(filtered), me);
  }

  /** For any groups: a walk that never enters the asking node ends in a node that the ACLs said yes to. */
  lemma {:induction false} TrailPasses(
    log: seq<Scan>, mesh: Mesh, full: AdjacencyMap, me: string, adj: AdjacencyMap, from: string, p: seq<string>)
    requires CutBy(log, mesh, full, me, adj) && Trail(mesh, adj, Blocked(adj, me), from, p) && from != me
    ensures Passes(log, mesh, me, p[|p| - 1])
    decreases |p|
  {
    if |p| == 1 {
      assert RowCut(log, mesh, me, full[from], adj[from]);
      assert Verdict(log, mesh, me, p[0], p[0] in adj[from].Keys);
    } else {
      TrailPasses(log, mesh, full, me, adj, p[0], p[1..]);
    }
  }

  /** For any groups: the ACLs said yes to whatever a peer carries besides itself, routes included. */
  lemma CarriedPasses(log: seq<Scan>, mesh: Mesh, full: AdjacencyMap, me: string, adj: AdjacencyMap, d: string,
      x: string)
    requires CutBy(log, mesh, full, me, adj) && d in Row(adj, me) && x in Carried(mesh, adj, me, d) && x != d
    ensures Passes(log, mesh, me, x)
  {
    var p :| Trail(mesh, adj, Blocked(adj, me), d, p) && p[|p| - 1] == x;
    TrailPasses(log, mesh, full, me, adj, d, p);
  }

  /** A walk that never enters the asking node ends in an admitted node. */
  lemma {:induction false} TrailAdmitted(
    groups: Groups, acls: seq<Acl>, mesh: Mesh, full: AdjacencyMap, me: string, from: string, p: seq<string>)
    requires var adj := Filtered(groups, acls, mesh, full, me); Trail(mesh, adj, Blocked(adj, me), from, p)
    requires from != me
    ensures Admitted(groups, acls, mesh, me, p[|p| - 1])
    decreases |p|
  {
    if |p| > 1 {
      TrailAdmitted(groups, acls, mesh, full, me, p[0], p[1..]);
    }
  }

  /** Whatever a peer carries besides itself has been admitted by the policy. */
  lemma CarriedAdmitted(groups: Groups, acls: seq<Acl>, mesh: Mesh, full: AdjacencyMap, me: string, d: string,
      x: string)
    requires var adj := Filtered(groups, acls, mesh, full, me); d in Row(adj, me) && x in Carried(mesh, adj, me, d)
    requires x != d
    ensures Admitted(groups, acls, mesh, me, x)
  {
    var adj := Filtered(groups, acls, mesh, full, me);
    var p :| Trail(mesh, adj, Blocked(adj, me), d, p) && p[|p| - 1] == x;
    TrailAdmitted(groups, acls, mesh, full, me, d, p);
  }

  /** Every node that some returned peer carries, itself included, is admitted. */
  ghost predicate AllCarriedAdmitted(groups: Groups, acls: seq<Acl>, mesh: Mesh, full: AdjacencyMap, me: string) {
    var adj := Filtered(groups, acls, mesh, full, me);
    forall d, x :: d in Row(adj, me) && mesh.Keyed(d) && x in Carried(mesh, adj, me, d) ==>
        Admitted(groups, acls, mesh, me, x)
  }

  /**
   The policy holds for everything the peers carry exactly when it admits each neighbour with a key. The
   filter itself never asks it about them: the asking node keeps its full row.
   */
  lemma PolicyExact(groups: Groups, acls: seq<Acl>, mesh: Mesh, full: AdjacencyMap, me: string)
    ensures AllCarriedAdmitted(groups, acls, mesh, full, me)
            <==> forall d :: d in Row(full, me) && mesh.Keyed(d) ==> Admitted(groups, acls, mesh, me, d)
  {
    var adj := Filtered(groups, acls, mesh, full, me);
    assert Row(adj, me) == Row(full, me);
    if AllCarriedAdmitted(groups, acls, mesh, full, me) {
      forall d | d in Row(full, me) && mesh.Keyed(d) ensures Admitted(groups, acls, mesh, me, d) {
        assert d in Carried(mesh, adj, me, d);
      }
    } else {
      var d, x :| d in Row(adj, me) && mesh.Keyed(d) && x in Carried(mesh, adj, me, d)
          && !Admitted(groups, acls, mesh, me, x);
      if x != d {
        CarriedAdmitted(groups, acls, mesh, full, me, d, x);
      }
    }
  }

  /** With no ACL at all nothing is admitted, yet a keyed neighbour still becomes a peer. */
  lemma DeniedNeighbourIsPeer()
    ensures exists mesh: Mesh, full: AdjacencyMap, me: string, d: string ::
              && !Admitted(map[], [], mesh, me, d)
              && mesh.Indexed() && mesh.Keyed(d)
              && d in Row(Filtered(map[], [], mesh, full, me), me)
              && !AllCarriedAdmitted(map[], [], mesh, full, me)
  {
    var mesh := Mesh(map["b" := Node("b", 1, None, None, "", "", [])], [], map[]);
    var full: AdjacencyMap := map["a" := map["b" := Edge(0, map[])]];
    assert !Admitted(map[], [], mesh, "a", "b");
    PolicyExact(map[], [], mesh, full, "a");
    assert "b" in Row(full, "a") && mesh.Keyed("b");
    assert mesh.Indexed() && "b" in Row(Filtered(map[], [], mesh, full, "a"), "a");
  }

  // ---------------------------------------------------------------------------------------------
  // In the terms of the actions
  // ---------------------------------------------------------------------------------------------

  /** The nodes and edges that the policy keeps, one by one. */
  lemma FilteredExact(groups: Groups, acls: seq<Acl>, mesh: Mesh, full: AdjacencyMap, me: string, k: string, p: string)
    ensures var adj := Filtered(groups, acls, mesh, full, me);
            && (k in adj <==> k == me || (k in full && Admitted(groups, acls, mesh, me, k)))
            && (k in adj && k != me ==>
                  && (p in adj[k] <==> p in full[k] && (p == me || Admitted(groups, acls, mesh, me, p)))
                  && (p in adj[k] ==> adj[k][p] == full[k][p]))
            && adj[me] == if me in full then full[me] else map[]
  {
  }

  /** An ID that stands for itself in a node list. */
  predicate Literal(id: string) {
    id != "" && '*' !in id && !IsRef(id)
  }

  lemma LiteralList(groups: Groups, id: string, s: string)
    requires Literal(id) && s != ""
    ensures PureNodes(groups, [id], s) <==> s == id
  {
    assert Expansion(groups, [id]) == {id};
  }

  /** The ACL's destination CIDRs cover this one. */
  predicate CoversCidr(acl: Acl, cidr: string) {
    cidr == "" || exists v :: v in acl.dstCidrs && WildcardMatch(v, cidr)
  }

  /** The destination CIDRs cover every CIDR of every route of the node. */
  predicate CoversRoutes(acl: Acl, routes: seq<Route>, node: string) {
    forall i, j :: 0 <= i < |routes| && 0 <= j < |routes[i].cidrs| && routes[i].node == node ==>
      CoversCidr(acl, routes[i].cidrs[j])
  }

  lemma CoversExposed(acl: Acl, mesh: Mesh, node: string)
    ensures CoversRoutes(acl, mesh.routes, node) <==> forall c :: c in mesh.Exposed(node) ==> CoversCidr(acl, c)
  {
    if forall c :: c in mesh.Exposed(node) ==> CoversCidr(acl, c) {
      forall i, j | 0 <= i < |mesh.routes| && 0 <= j < |mesh.routes[i].cidrs| && mesh.routes[i].node == node
        ensures CoversCidr(acl, mesh.routes[i].cidrs[j])
      {
        assert mesh.routes[i].cidrs[j] in mesh.Exposed(node);
      }
    }
  }

  /** The question asked about a route, in full. */
  lemma RouteQuestion(groups: Groups, acl: Acl, me: string, node: string, cidr: string)
    requires Literal(me) && Literal(node) && acl.srcNodes == [me] && acl.dstNodes == [node]
    ensures PureMatches(groups, acl, NetworkAction(me, node, "", cidr, "", 0)) <==>
            CoversCidr(acl, cidr)
  {
    LiteralList(groups, me, me);
    LiteralList(groups, node, node);
    if v :| v in acl.dstCidrs && WildcardMatch(v, cidr) {
      assert v in SetOf(acl.dstCidrs);
    }
  }

  /**
   The direction of the policy. With a single accepting ACL from the asking node to another one, that node is
   kept exactly when the ACL's destination CIDRs cover all routes that the node exposes. With the same
   ACL the other way round it is dropped.
   */
  lemma PolicyDirection(groups: Groups, acl: Acl, mesh: Mesh, full: AdjacencyMap, me: string, node: string)
    requires Literal(me) && Literal(node) && me != node && node in full && acl.action == ACTION_ACCEPT
    ensures acl.srcNodes == [me] && acl.dstNodes == [node] ==>
              (node in Filtered(groups, [acl], mesh, full, me) <==> CoversRoutes(acl, mesh.routes, node))
    ensures acl.srcNodes == [node] && acl.dstNodes == [me] ==> node !in Filtered(groups, [acl], mesh, full, me)
  {
    forall a ensures PureAccept(groups, [acl], a) <==> PureMatches(groups, acl, a) {
      AcceptAt(groups, [acl], a, if PureMatches(groups, acl, a) then 0 else 1);
    }
    FilteredExact(groups, [acl], mesh, full, me, node, me);
    if acl.srcNodes == [me] && acl.dstNodes == [node] {
      RouteQuestion(groups, acl, me, node, "");
      forall cidr ensures PureMatches(groups, acl, ViaRoute(me, node, cidr)) <==> CoversCidr(acl, cidr) {
        RouteQuestion(groups, acl, me, node, cidr);
      }
      CoversExposed(acl, mesh, node);
    } else if acl.srcNodes == [node] && acl.dstNodes == [me] {
      LiteralList(groups, node, me);
    }
  }
}
