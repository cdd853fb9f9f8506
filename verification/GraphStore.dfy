/**
 The graph store over flat storage (pkg/meshdb/peers/graph.go) and the directed graph that it refines.

 The `...Step` functions give the storage and the outcome of each operation of the store, for arbitrary
 IDs; the operations on `Graph` are the reference. Values are stored decoded: a record of the wrong
 shape stands for one that does not decode.
 */
module GraphStore {
  import opened Wrappers
  import opened MeshData
  import opened KeyValue
  import opened RegistryKeys
  import MeshRouting

  type Props = MeshData.Edge

  /** Edge in pkg/meshdb/peers/peers.go: the stored record repeats the two IDs of its key. */
  datatype Value = NodeValue(node: Node) | EdgeValue(from: string, to: string, props: Props) | OtherValue(text: string)

  type DB = map<string, Value>

  datatype GraphError = EmptyID | VertexNotFound | VertexHasEdges | EdgeNotFound | EdgeAlreadyExists | DecodeError

  /** graph.Edge[string]. */
  datatype GraphEdge = GraphEdge(source: string, target: string, props: Props)

  function NodeKey(id: string): string {
    Key(Nodes, id)
  }

  // ---------------------------------------------------------------------------------------------
  // The store
  // ---------------------------------------------------------------------------------------------

  predicate Touches(edge: Option<(string, string)>, id: string) {
    edge.Some? && (edge.value.0 == id || edge.value.1 == id)
  }

  predicate HasEdges(db: DB, id: string) {
    exists k :: k in KeysUnder(db, PrefixOf(Edges)) && Touches(ParseEdge(k), id)
  }

  predicate HasVertex(db: DB, a: string, b: string) {
    exists k :: k in KeysUnder(db, PrefixOf(Nodes)) && (NameOf(Nodes, k) == a || NameOf(Nodes, k) == b)
  }

  predicate HasEdge(db: DB, a: string, b: string) {
    exists k :: k in KeysUnder(db, PrefixOf(Edges)) && ParseEdge(k) == Some((a, b))
  }

  function AddVertexStep(db: DB, id: string, node: Node): (DB, Option<GraphError>) {
    if id == "" then (db, Some(EmptyID)) else (AfterPut(db, NodeKey(id), NodeValue(node)), None)
  }

  function RemoveVertexStep(db: DB, id: string): (DB, Option<GraphError>) {
    if id == "" then (db, Some(EmptyID))
    else if NodeKey(id) !in db then (db, Some(VertexNotFound))
    else if HasEdges(db, id) then (db, Some(VertexHasEdges))
    else (AfterDelete(db, NodeKey(id)), None)
  }

  function AddEdgeStep(db: DB, a: string, b: string, props: Props): (DB, Option<GraphError>) {
    if !HasVertex(db, a, b) then (db, Some(VertexNotFound))
    else if HasEdge(db, a, b) then (db, Some(EdgeAlreadyExists))
    else (AfterPut(db, EdgeKey(a, b), EdgeValue(a, b, props)), None)
  }

  function UpdateEdgeStep(db: DB, a: string, b: string, props: Props): (DB, Option<GraphError>) {
    if EdgeKey(a, b) !in db then (db, Some(EdgeNotFound))
    else (AfterPut(db, EdgeKey(a, b), EdgeValue(a, b, props)), None)
  }

  function RemoveEdgeStep(db: DB, a: string, b: string): (DB, Option<GraphError>) {
    (AfterDelete(db, EdgeKey(a, b)), None)
  }

  function VertexOf(db: DB, id: string): Result<Node, GraphError> {
    if id == "" then Err(EmptyID)
    else if NodeKey(id) !in db then Err(VertexNotFound)
    else if !db[NodeKey(id)].NodeValue? then Err(DecodeError)
    else Ok(db[NodeKey(id)].node)
  }

  function EdgeOf(db: DB, a: string, b: string): Result<GraphEdge, GraphError> {
    if EdgeKey(a, b) !in db then Err(EdgeNotFound)
    else if !db[EdgeKey(a, b)].EdgeValue? then Err(DecodeError)
    else Ok(GraphEdge(a, b, db[EdgeKey(a, b)].props))
  }

  class Store {
    var db: DB

    constructor (initial: DB)
      ensures db == initial
    {
      db := initial;
    }

    method AddVertex(id: string, node: Node) returns (err: Option<GraphError>)
      modifies this
      ensures (db, err) == AddVertexStep(old(db), id, node)
    {
      if id == "" {
        return Some(EmptyID);
      }
      db := db[NodeKey(id) := NodeValue(node)];
      return None;
    }

    method Vertex(id: string) returns (r: Result<Node, GraphError>)
      ensures r == VertexOf(db, id)
    {
      if id == "" {
        return Err(EmptyID);
      }
      if NodeKey(id) !in db {
        return Err(VertexNotFound);
      }
      match db[NodeKey(id)]
      case NodeValue(node) => return Ok(node);
      case _ => return Err(DecodeError);
    }

    method RemoveVertex(id: string) returns (err: Option<GraphError>)
      modifies this
      ensures (db, err) == RemoveVertexStep(old(db), id)
    {
      if id == "" {
        return Some(EmptyID);
      }
      if NodeKey(id) !in db {
        return Some(VertexNotFound);
      }
      var keys := List(db, PrefixOf(Edges));
      for i := 0 to |keys|
        invariant db == old(db)
        invariant forall j :: 0 <= j < i ==> !Touches(ParseEdge(keys[j]), id)
      {
        assert keys[i] in SetOf(keys);
        var edge := ParseEdge(keys[i]);
        if edge == None {
          continue;
        }
        if edge.value.0 == id || edge.value.1 == id {
          return Some(VertexHasEdges);
        }
      }
      assert forall k :: k in KeysUnder(db, PrefixOf(Edges)) ==> k in keys;
      db := db - {NodeKey(id)};
      return None;
    }

    method ListVertices() returns (out: seq<string>)
      ensures SetOf(out) == set k | k in KeysUnder(db, PrefixOf(Nodes)) :: NameOf(Nodes, k)
    {
      var keys := List(db, PrefixOf(Nodes));
      out := [];
      for i := 0 to |keys|
        invariant SetOf(out) == set k | k in SetOf(keys[..i]) :: NameOf(Nodes, k)
      {
        SetOfTake(keys, i);
        SetOfAppend(out, NameOf(Nodes, keys[i]));
        out := out + [NameOf(Nodes, keys[i])];
      }
      assert keys[..|keys|] == keys;
    }

    method AddEdge(a: string, b: string, props: Props) returns (err: Option<GraphError>)
      modifies this
      ensures (db, err) == AddEdgeStep(old(db), a, b, props)
    {
      var nodeKeys := List(db, PrefixOf(Nodes));
      var edgeKeys := List(db, PrefixOf(Edges));
      var vertexExists := AnyVertex(nodeKeys, a, b);
      SameElementsOfSet(nodeKeys, KeysUnder(db, PrefixOf(Nodes)));
      if !vertexExists {
        return Some(VertexNotFound);
      }
      var edgeExists := AnyEdge(edgeKeys, a, b);
      SameElementsOfSet(edgeKeys, KeysUnder(db, PrefixOf(Edges)));
      if edgeExists {
        return Some(EdgeAlreadyExists);
      }
      db := db[EdgeKey(a, b) := EdgeValue(a, b, props)];
      return None;
    }

    method UpdateEdge(a: string, b: string, props: Props) returns (err: Option<GraphError>)
      modifies this
      ensures (db, err) == UpdateEdgeStep(old(db), a, b, props)
    {
      if EdgeKey(a, b) !in db {
        return Some(EdgeNotFound);
      }
      db := db[EdgeKey(a, b) := EdgeValue(a, b, props)];
      return None;
    }

    method RemoveEdge(a: string, b: string) returns (err: Option<GraphError>)
      modifies this
      ensures (db, err) == RemoveEdgeStep(old(db), a, b)
    {
      db := db - {EdgeKey(a, b)};
      return None;
    }

    /** Edge reads the key: source and target come from the arguments. */
    method Edge(a: string, b: string) returns (r: Result<GraphEdge, GraphError>)
      ensures r == EdgeOf(db, a, b)
    {
      if EdgeKey(a, b) !in db {
        return Err(EdgeNotFound);
      }
      match db[EdgeKey(a, b)]
      case EdgeValue(_, _, props) => return Ok(GraphEdge(a, b, props));
      case _ => return Err(DecodeError);
    }

    /** ListEdges reads the values: source and target come from the records. */
    method ListEdges() returns (r: Result<seq<GraphEdge>, GraphError>)
      ensures r.Ok? <==> forall k :: k in KeysUnder(db, PrefixOf(Edges)) ==> db[k].EdgeValue?
      ensures r.Ok? ==> forall e :: e in r.value <==>
                exists k :: k in KeysUnder(db, PrefixOf(Edges)) && db[k] == EdgeValue(e.source, e.target, e.props)
    {
      var keys := List(db, PrefixOf(Edges));
      SameElementsOfSet(keys, KeysUnder(db, PrefixOf(Edges)));
      var edges: seq<GraphEdge> := [];
      for i := 0 to |keys|
        invariant forall j :: 0 <= j < i ==> keys[j] in db && db[keys[j]].EdgeValue?
        invariant forall e :: e in edges <==>
                    exists j :: 0 <= j < i && db[keys[j]] == EdgeValue(e.source, e.target, e.props)
      {
        assert keys[i] in keys;
        match db[keys[i]]
        case EdgeValue(from, to, props) => edges := edges + [GraphEdge(from, to, props)];
        case _ => return Err(DecodeError);
      }
      return Ok(edges);
    }
  }

  lemma SameElementsOfSet(keys: seq<string>, s: set<string>)
    requires SetOf(keys) == s
    ensures forall k :: k in keys <==> k in s
  {
    assert forall k :: k in keys <==> k in SetOf(keys);
  }

  /** The loop that sets vertexExists. */
  method AnyVertex(keys: seq<string>, a: string, b: string) returns (found: bool)
    ensures found <==> exists k :: k in keys && (NameOf(Nodes, k) == a || NameOf(Nodes, k) == b)
  {
    for i := 0 to |keys|
      invariant forall j :: 0 <= j < i ==> NameOf(Nodes, keys[j]) != a && NameOf(Nodes, keys[j]) != b
    {
      var key := NameOf(Nodes, keys[i]);
      if key == a || key == b {
        return true;
      }
    }
    return false;
  }

  /** The loop that sets edgeExists. */
  method AnyEdge(keys: seq<string>, a: string, b: string) returns (found: bool)
    ensures found <==> exists k :: k in keys && ParseEdge(k) == Some((a, b))
  {
    for i := 0 to |keys|
      invariant forall j :: 0 <= j < i ==> ParseEdge(keys[j]) != Some((a, b))
    {
      if ParseEdge(keys[i]) == Some((a, b)) {
        return true;
      }
    }
    return false;
  }

  // ---------------------------------------------------------------------------------------------
  // The reference graph
  // ---------------------------------------------------------------------------------------------

  type Pair = (string, string)

  datatype Graph = Graph(vertices: map<string, Node>, edges: map<Pair, Props>)

  predicate HasEdgesIn(g: Graph, id: string) {
    exists p :: p in g.edges && (p.0 == id || p.1 == id)
  }

  datatype Op =
    | AddVertex(id: string, node: Node)
    | RemoveVertex(id: string)
    | AddEdge(a: string, b: string, props: Props)
    | UpdateEdge(a: string, b: string, props: Props)
    | RemoveEdge(a: string, b: string)

  function StoreStep(db: DB, op: Op): (DB, Option<GraphError>) {
    match op
    case AddVertex(id, node) => AddVertexStep(db, id, node)
    case RemoveVertex(id) => RemoveVertexStep(db, id)
    case AddEdge(a, b, props) => AddEdgeStep(db, a, b, props)
    case UpdateEdge(a, b, props) => UpdateEdgeStep(db, a, b, props)
    case RemoveEdge(a, b) => RemoveEdgeStep(db, a, b)
  }

  /** A directed graph in which an edge needs only one of its ends to exist. */
  function GraphStep(g: Graph, op: Op): (Graph, Option<GraphError>) {
    match op
    case AddVertex(id, node) =>
      if id == "" then (g, Some(EmptyID)) else (g.(vertices := g.vertices[id := node]), None)
    case RemoveVertex(id) =>
      if id == "" then (g, Some(EmptyID))
      else if id !in g.vertices then (g, Some(VertexNotFound))
      else if HasEdgesIn(g, id) then (g, Some(VertexHasEdges))
      else (g.(vertices := g.vertices - {id}), None)
    case AddEdge(a, b, props) =>
      if a !in g.vertices && b !in g.vertices then (g, Some(VertexNotFound))
      else if (a, b) in g.edges then (g, Some(EdgeAlreadyExists))
      else (g.(edges := g.edges[(a, b) := props]), None)
    case UpdateEdge(a, b, props) =>
      if (a, b) !in g.edges then (g, Some(EdgeNotFound)) else (g.(edges := g.edges[(a, b) := props]), None)
    case RemoveEdge(a, b) => (g.(edges := g.edges - {(a, b)}), None)
  }

  /** IDs without slashes, as IsValidID demands, and vertices stored under their own ID. */
  predicate Proper(op: Op) {
    match op
    case AddVertex(id, node) => SlashFree(id) && node.id == id
    case RemoveVertex(id) => SlashFree(id)
    case AddEdge(a, b, _) => SlashFree(a) && SlashFree(b)
    case UpdateEdge(a, b, _) => SlashFree(a) && SlashFree(b)
    case RemoveEdge(a, b) => SlashFree(a) && SlashFree(b)
  }

  // ---------------------------------------------------------------------------------------------
  // Refinement
  // ---------------------------------------------------------------------------------------------

  ghost predicate ProperGraph(g: Graph) {
    && (forall id :: id in g.vertices ==> SlashFree(id))
    && ProperEdges(g.edges)
  }

  ghost function NodeRecords(g: Graph): map<string, Value> {
    map id | id in g.vertices :: NodeValue(g.vertices[id])
  }

  ghost predicate ProperEdges(edges: map<Pair, Props>) {
    forall p :: p in edges ==> SlashFree(p.0) && SlashFree(p.1)
  }

  /** Under the edges prefix the storage holds exactly these edges, and each record repeats its key. */
  ghost predicate HoldsEdges(db: DB, edges: map<Pair, Props>) {
    && (forall p :: p in edges ==> EdgeKey(p.0, p.1) in db && db[EdgeKey(p.0, p.1)] == EdgeValue(p.0, p.1, edges[p]))
    && (forall k :: k in db && PrefixOf(Edges) <= k ==> exists p :: p in edges && k == EdgeKey(p.0, p.1))
  }

  /** The storage holds the graph: exactly its vertices and its edges. */
  ghost predicate Represents(db: DB, g: Graph) {
    ProperGraph(g) && Holds(db, Nodes, NodeRecords(g)) && HoldsEdges(db, g.edges)
  }

  lemma VertexPresent(db: DB, g: Graph, id: string)
    requires Represents(db, g)
    ensures NodeKey(id) in db <==> id in g.vertices
    ensures id in g.vertices ==> db[NodeKey(id)] == NodeValue(g.vertices[id])
  {
    NameOfKey(Nodes, id);
    assert id in g.vertices ==> id in NodeRecords(g);
  }

  lemma EdgePresent(db: DB, g: Graph, a: string, b: string)
    requires Represents(db, g) && SlashFree(a) && SlashFree(b)
    ensures EdgeKey(a, b) in db <==> (a, b) in g.edges
    ensures (a, b) in g.edges ==> db[EdgeKey(a, b)] == EdgeValue(a, b, g.edges[(a, b)])
  {
    NameOfKey(Edges, EdgeName(a, b));
    if (a, b) in g.edges {
      var p := (a, b);
      assert EdgeKey(p.0, p.1) in db && db[EdgeKey(p.0, p.1)] == EdgeValue(p.0, p.1, g.edges[p]);
    }
    if EdgeKey(a, b) in db {
      var p :| p in g.edges && EdgeKey(p.0, p.1) == EdgeKey(a, b);
      EdgeKeysApart(p.0, p.1, a, b);
      assert p == (a, b);
    }
  }

  /** Every key under the edges prefix is the key of an edge of the graph. */
  lemma EdgeOfKey(db: DB, g: Graph, k: string) returns (p: Pair)
    requires Represents(db, g) && k in KeysUnder(db, PrefixOf(Edges))
    ensures p in g.edges && k == EdgeKey(p.0, p.1) && ParseEdge(k) == Some(p)
  {
    p :| p in g.edges && k == EdgeKey(p.0, p.1);
    ParseEdgeKey(p.0, p.1);
    assert p == (p.0, p.1);
  }

  lemma EdgeListed(db: DB, g: Graph, p: Pair)
    requires Represents(db, g) && p in g.edges
    ensures EdgeKey(p.0, p.1) in KeysUnder(db, PrefixOf(Edges)) && ParseEdge(EdgeKey(p.0, p.1)) == Some(p)
  {
    EdgePresent(db, g, p.0, p.1);
    NameOfKey(Edges, EdgeName(p.0, p.1));
    ParseEdgeKey(p.0, p.1);
    assert p == (p.0, p.1);
  }

  lemma QueriesAgree(db: DB, g: Graph, a: string, b: string)
    requires Represents(db, g)
    ensures HasVertex(db, a, b) <==> a in g.vertices || b in g.vertices
    ensures HasEdge(db, a, b) <==> (a, b) in g.edges
    ensures HasEdges(db, a) <==> HasEdgesIn(g, a)
  {
    if HasVertex(db, a, b) {
      var k :| k in KeysUnder(db, PrefixOf(Nodes)) && (NameOf(Nodes, k) == a || NameOf(Nodes, k) == b);
      assert NameOf(Nodes, k) in NodeRecords(g);
    }
    forall id | id in g.vertices
      ensures NodeKey(id) in KeysUnder(db, PrefixOf(Nodes)) && NameOf(Nodes, NodeKey(id)) == id
    {
      VertexPresent(db, g, id);
      NameOfKey(Nodes, id);
    }
    if HasEdge(db, a, b) {
      var k :| k in KeysUnder(db, PrefixOf(Edges)) && ParseEdge(k) == Some((a, b));
      var p := EdgeOfKey(db, g, k);
    }
    if (a, b) in g.edges {
      EdgeListed(db, g, (a, b));
    }
    if HasEdges(db, a) {
      var k :| k in KeysUnder(db, PrefixOf(Edges)) && Touches(ParseEdge(k), a);
      var p := EdgeOfKey(db, g, k);
    }
    if HasEdgesIn(g, a) {
      var p :| p in g.edges && (p.0 == a || p.1 == a);
      EdgeListed(db, g, p);
    }
  }

  // ---------------------------------------------------------------------------------------------
  // Each operation
  // ---------------------------------------------------------------------------------------------

  lemma EdgesBesidePut(db: DB, edges: map<Pair, Props>, k: string, value: Value)
    requires HoldsEdges(db, edges) && !(PrefixOf(Edges) <= k)
    ensures HoldsEdges(db[k := value], edges)
  {
    forall p | p in edges ensures EdgeKey(p.0, p.1) != k {
      NameOfKey(Edges, EdgeName(p.0, p.1));
    }
  }

  lemma EdgesBesideDelete(db: DB, edges: map<Pair, Props>, k: string)
    requires HoldsEdges(db, edges) && !(PrefixOf(Edges) <= k)
    ensures HoldsEdges(db - {k}, edges)
  {
    forall p | p in edges ensures EdgeKey(p.0, p.1) != k {
      NameOfKey(Edges, EdgeName(p.0, p.1));
    }
  }

  lemma EdgesPut(db: DB, edges: map<Pair, Props>, a: string, b: string, props: Props)
    requires HoldsEdges(db, edges) && ProperEdges(edges) && SlashFree(a) && SlashFree(b)
    ensures HoldsEdges(db[EdgeKey(a, b) := EdgeValue(a, b, props)], edges[(a, b) := props])
  {
    var db', edges' := db[EdgeKey(a, b) := EdgeValue(a, b, props)], edges[(a, b) := props];
    forall p | p in edges && p != (a, b) ensures EdgeKey(p.0, p.1) != EdgeKey(a, b) {
      EdgeKeysApart(p.0, p.1, a, b);
      assert p == (p.0, p.1);
    }
    forall k | k in db' && PrefixOf(Edges) <= k ensures exists p :: p in edges' && k == EdgeKey(p.0, p.1) {
      if k == EdgeKey(a, b) {
        assert (a, b) in edges' && k == EdgeKey((a, b).0, (a, b).1);
      } else {
        var p :| p in edges && k == EdgeKey(p.0, p.1);
        assert p in edges';
      }
    }
  }

  lemma EdgesDelete(db: DB, edges: map<Pair, Props>, a: string, b: string)
    requires HoldsEdges(db, edges) && ProperEdges(edges) && SlashFree(a) && SlashFree(b)
    ensures HoldsEdges(db - {EdgeKey(a, b)}, edges - {(a, b)})
  {
    var db', edges' := db - {EdgeKey(a, b)}, edges - {(a, b)};
    forall p | p in edges && p != (a, b) ensures EdgeKey(p.0, p.1) != EdgeKey(a, b) {
      EdgeKeysApart(p.0, p.1, a, b);
      assert p == (p.0, p.1);
    }
    forall k | k in db' && PrefixOf(Edges) <= k ensures exists p :: p in edges' && k == EdgeKey(p.0, p.1) {
      var p :| p in edges && k == EdgeKey(p.0, p.1);
      assert p != (a, b);
      assert p in edges';
    }
  }

  lemma AddVertexRefines(db: DB, g: Graph, id: string, node: Node)
    requires Represents(db, g) && SlashFree(id)
    ensures Represents(AfterPut(db, NodeKey(id), NodeValue(node)), g.(vertices := g.vertices[id := node]))
  {
    NameOfKey(Nodes, id);
    HoldsPutHere(db, Nodes, NodeRecords(g), id, NodeValue(node));
    assert NodeRecords(g.(vertices := g.vertices[id := node])) == NodeRecords(g)[id := NodeValue(node)];
    PrefixesApart(Nodes, Edges, id);
    EdgesBesidePut(db, g.edges, NodeKey(id), NodeValue(node));
  }

  lemma RemoveVertexRefines(db: DB, g: Graph, id: string)
    requires Represents(db, g)
    ensures Represents(AfterDelete(db, NodeKey(id)), g.(vertices := g.vertices - {id}))
  {
    NameOfKey(Nodes, id);
    HoldsDeleteHere(db, Nodes, NodeRecords(g), id);
    assert NodeRecords(g.(vertices := g.vertices - {id})) == NodeRecords(g) - {id};
    PrefixesApart(Nodes, Edges, id);
    EdgesBesideDelete(db, g.edges, NodeKey(id));
  }

  lemma PutEdgeRefines(db: DB, g: Graph, a: string, b: string, props: Props)
    requires Represents(db, g) && SlashFree(a) && SlashFree(b)
    ensures Represents(AfterPut(db, EdgeKey(a, b), EdgeValue(a, b, props)), g.(edges := g.edges[(a, b) := props]))
  {
    NameOfKey(Edges, EdgeName(a, b));
    EdgesPut(db, g.edges, a, b, props);
    PrefixesApart(Edges, Nodes, EdgeName(a, b));
    HoldsPutElsewhere(db, Nodes, NodeRecords(g), EdgeKey(a, b), EdgeValue(a, b, props));
    assert NodeRecords(g.(edges := g.edges[(a, b) := props])) == NodeRecords(g);
  }

  lemma RemoveEdgeRefines(db: DB, g: Graph, a: string, b: string)
    requires Represents(db, g) && SlashFree(a) && SlashFree(b)
    ensures Represents(AfterDelete(db, EdgeKey(a, b)), g.(edges := g.edges - {(a, b)}))
  {
    NameOfKey(Edges, EdgeName(a, b));
    EdgesDelete(db, g.edges, a, b);
    PrefixesApart(Edges, Nodes, EdgeName(a, b));
    HoldsDeleteElsewhere(db, Nodes, NodeRecords(g), EdgeKey(a, b));
    assert NodeRecords(g.(edges := g.edges - {(a, b)})) == NodeRecords(g);
  }

  /** One operation on the storage is the operation on the graph, with the same outcome. */
  lemma StepRefines(db: DB, g: Graph, op: Op)
    requires Represents(db, g) && Proper(op)
    ensures StoreStep(db, op).1 == GraphStep(g, op).1
    ensures Represents(StoreStep(db, op).0, GraphStep(g, op).0)
  {
    match op
    case AddVertex(id, node) => AddVertexRefines(db, g, id, node);
    case RemoveVertex(id) =>
      VertexPresent(db, g, id);
      QueriesAgree(db, g, id, id);
      RemoveVertexRefines(db, g, id);
    case AddEdge(a, b, props) =>
      QueriesAgree(db, g, a, b);
      PutEdgeRefines(db, g, a, b, props);
    case UpdateEdge(a, b, props) =>
      EdgePresent(db, g, a, b);
      PutEdgeRefines(db, g, a, b, props);
    case RemoveEdge(a, b) => RemoveEdgeRefines(db, g, a, b);
  }

  // ---------------------------------------------------------------------------------------------
  // Runs
  // ---------------------------------------------------------------------------------------------

  function StoreRun(db: DB, ops: seq<Op>): (DB, seq<Option<GraphError>>) {
    if ops == [] then (db, []) else
      var (before, errs) := StoreRun(db, ops[..|ops| - 1]);
      var (after, err) := StoreStep(before, ops[|ops| - 1]);
      (after, errs + [err])
  }

  function GraphRun(g: Graph, ops: seq<Op>): (Graph, seq<Option<GraphError>>) {
    if ops == [] then (g, []) else
      var (before, errs) := GraphRun(g, ops[..|ops| - 1]);
      var (after, err) := GraphStep(before, ops[|ops| - 1]);
      (after, errs + [err])
  }

  /** Each edge has an end that exists, and each vertex is stored under its own ID, which is not empty. */
  ghost predicate Anchored(g: Graph) {
    && (forall p :: p in g.edges ==> p.0 in g.vertices || p.1 in g.vertices)
    && (forall id :: id in g.vertices ==> id != "" && g.vertices[id].id == id)
  }

  lemma StepAnchored(g: Graph, op: Op)
    requires Anchored(g) && Proper(op)
    ensures Anchored(GraphStep(g, op).0)
  {
  }

  const EMPTY := Graph(map[], map[])

  /**
   From a storage without nodes and edges, any operations leave the storage, their outcomes and the
   reference graph in agreement, and no edge without an end.
   */
  lemma {:induction false} StoreRefinesGraph(db: DB, ops: seq<Op>)
    requires KeysUnder(db, PrefixOf(Nodes)) == {} && KeysUnder(db, PrefixOf(Edges)) == {}
    requires forall i :: 0 <= i < |ops| ==> Proper(ops[i])
    ensures StoreRun(db, ops).1 == GraphRun(EMPTY, ops).1
    ensures Represents(StoreRun(db, ops).0, GraphRun(EMPTY, ops).0)
    ensures Anchored(GraphRun(EMPTY, ops).0)
    decreases |ops|
  {
    if ops == [] {
      assert forall k :: k in db && PrefixOf(Nodes) <= k ==> k in KeysUnder(db, PrefixOf(Nodes));
      assert forall k :: k in db && PrefixOf(Edges) <= k ==> k in KeysUnder(db, PrefixOf(Edges));
    } else {
      var front, last := ops[..|ops| - 1], ops[|ops| - 1];
      StoreRefinesGraph(db, front);
      StepRefines(StoreRun(db, front).0, GraphRun(EMPTY, front).0, last);
      StepAnchored(GraphRun(EMPTY, front).0, last);
    }
  }

  /** Reading an edge by its key and listing the edges by their values agree. */
  lemma EdgeReadsAgree(db: DB, g: Graph, e: GraphEdge)
    requires Represents(db, g) && SlashFree(e.source) && SlashFree(e.target)
    ensures EdgeOf(db, e.source, e.target) == Ok(e) <==>
            exists k :: k in KeysUnder(db, PrefixOf(Edges)) && db[k] == EdgeValue(e.source, e.target, e.props)
    ensures EdgeOf(db, e.source, e.target) == Ok(e) <==>
            (e.source, e.target) in g.edges && g.edges[(e.source, e.target)] == e.props
  {
    EdgePresent(db, g, e.source, e.target);
    NameOfKey(Edges, EdgeName(e.source, e.target));
    if k :| k in KeysUnder(db, PrefixOf(Edges)) && db[k] == EdgeValue(e.source, e.target, e.props) {
      var p := EdgeOfKey(db, g, k);
      EdgePresent(db, g, p.0, p.1);
      assert p == (p.0, p.1);
    }
  }

  /** Reading a vertex by its key, and listing the vertices, give what the graph holds. */
  lemma VertexReadsAgree(db: DB, g: Graph, id: string)
    requires Represents(db, g) && Anchored(g)
    ensures VertexOf(db, id) == if id == "" then Err(EmptyID) else
                                if id in g.vertices then Ok(g.vertices[id]) else Err(VertexNotFound)
    ensures (set k | k in KeysUnder(db, PrefixOf(Nodes)) :: NameOf(Nodes, k)) == g.vertices.Keys
  {
    VertexPresent(db, g, id);
    var names := set k | k in KeysUnder(db, PrefixOf(Nodes)) :: NameOf(Nodes, k);
    forall v | v in g.vertices ensures v in names {
      VertexPresent(db, g, v);
      NameOfKey(Nodes, v);
      assert NodeKey(v) in KeysUnder(db, PrefixOf(Nodes));
    }
  }

  /** IDs that IsValidID accepts have no slashes, which is what the refinement asks of them. */
  lemma ValidIDsHaveNoSlashes(id: string)
    requires IsValidID(id)
    ensures SlashFree(id) && id != ""
  {
    assert '/' in INVALID_ID_CHARS;
  }

  // ---------------------------------------------------------------------------------------------
  // IDs with slashes
  // ---------------------------------------------------------------------------------------------

  /** Each record under the edges prefix is stored under the key printed from its own ends. */
  ghost predicate Recorded(db: DB) {
    forall k :: k in KeysUnder(db, PrefixOf(Edges)) ==> db[k].EdgeValue? && k == EdgeKey(db[k].from, db[k].to)
  }

  /** A stored edge names the vertex. */
  ghost predicate Names(db: DB, k: string, id: string) {
    k in KeysUnder(db, PrefixOf(Edges)) && db[k].EdgeValue? && (db[k].from == id || db[k].to == id)
  }

  lemma StepRecorded(db: DB, op: Op)
    requires Recorded(db)
    ensures Recorded(StoreStep(db, op).0)
  {
    if op.AddVertex? || op.RemoveVertex? {
      PrefixesApart(Nodes, Edges, op.id);
    }
    var db' := StoreStep(db, op).0;
    forall k | k in KeysUnder(db', PrefixOf(Edges)) ensures db'[k].EdgeValue? && k == EdgeKey(db'[k].from, db'[k].to) {
      assert k in db && db[k] == db'[k] ==> k in KeysUnder(db, PrefixOf(Edges));
    }
  }

  lemma {:induction false} RunRecorded(ops: seq<Op>)
    ensures Recorded(StoreRun(map[], ops).0)
    decreases |ops|
  {
    if ops != [] {
      RunRecorded(ops[..|ops| - 1]);
      StepRecorded(StoreRun(map[], ops[..|ops| - 1]).0, ops[|ops| - 1]);
    }
  }

  /**
   After any operations on any IDs, a vertex counts as having edges exactly when some stored edge names
   it and neither end of that edge has a slash. Any other edge that names it is overlooked.
   */
  lemma RemovalGuardExact(ops: seq<Op>, id: string)
    ensures var db := StoreRun(map[], ops).0;
            HasEdges(db, id) <==> exists k :: Names(db, k, id) && SlashFree(db[k].from) && SlashFree(db[k].to)
  {
    RunRecorded(ops);
    var db := StoreRun(map[], ops).0;
    forall k | k in KeysUnder(db, PrefixOf(Edges))
      ensures Touches(ParseEdge(k), id) <==> Names(db, k, id) && SlashFree(db[k].from) && SlashFree(db[k].to)
    {
      ParseEdgeKey(db[k].from, db[k].to);
    }
  }

  lemma OneVertex(id: string, b: string, node: Node)
    requires id != ""
    ensures var db := map[NodeKey(id) := NodeValue(node)];
            AddVertexStep(map[], id, node).0 == db && HasVertex(db, id, b) && KeysUnder(db, PrefixOf(Edges)) == {}
  {
    var db: DB := map[NodeKey(id) := NodeValue(node)];
    NameOfKey(Nodes, id);
    PrefixesApart(Nodes, Edges, id);
    assert NodeKey(id) in KeysUnder(db, PrefixOf(Nodes));
  }

  /** A vertex with one edge is kept exactly when both ends are free of slashes, and removed otherwise. */
  lemma SlashedVertexLeavesEdges(id: string, b: string, node: Node, props: Props)
    requires id != ""
    ensures var db := AddEdgeStep(AddVertexStep(map[], id, node).0, id, b, props).0;
            && EdgeKey(id, b) in db
            && RemoveVertexStep(db, id) == if SlashFree(id) && SlashFree(b) then (db, Some(VertexHasEdges))
                                           else (map[EdgeKey(id, b) := EdgeValue(id, b, props)], None)
  {
    OneVertex(id, b, node);
    var db: DB := map[NodeKey(id) := NodeValue(node), EdgeKey(id, b) := EdgeValue(id, b, props)];
    assert AddEdgeStep(AddVertexStep(map[], id, node).0, id, b, props).0 == db;
    PrefixesApart(Nodes, Edges, id);
    ParseEdgeKey(id, b);
    assert KeysUnder(db, PrefixOf(Edges)) == {EdgeKey(id, b)};
    assert HasEdges(db, id) <==> SlashFree(id) && SlashFree(b);
    assert db - {NodeKey(id)} == map[EdgeKey(id, b) := EdgeValue(id, b, props)];
  }

  /** The vertices of a stored graph are what the routing walk expects of a mesh. */
  lemma StoredVerticesAreIndexed(db: DB, ops: seq<Op>, routes: seq<Route>, prefixes: map<string, Prefix>)
    requires KeysUnder(db, PrefixOf(Nodes)) == {} && KeysUnder(db, PrefixOf(Edges)) == {}
    requires forall i :: 0 <= i < |ops| ==> Proper(ops[i])
    ensures MeshRouting.Mesh(GraphRun(EMPTY, ops).0.vertices, routes, prefixes).Indexed()
  {
    StoreRefinesGraph(db, ops);
  }
}
