/**
 The flat key space of the registries (pkg/meshdb). A record lives under "<prefix>/<name>", an edge under
 "<prefix>/<source>/<target>", and listing goes by the bare prefix, without a trailing slash.
 */
module RegistryKeys {
  import opened Wrappers
  import opened KeyValue

  datatype Registry = Nodes | Edges | NetworkACLs | Routes | Roles | RoleBindings | Groups | MeshState

  function PrefixOf(r: Registry): string {
    match r
    case Nodes => "/registry/nodes"
    case Edges => "/registry/edges"
    case NetworkACLs => "/registry/network-acls"
    case Routes => "/registry/routes"
    case Roles => "/registry/roles"
    case RoleBindings => "/registry/rolebindings"
    case Groups => "/registry/groups"
    case MeshState => "/registry/meshstate"
  }

  function Key(r: Registry, name: string): string {
    PrefixOf(r) + "/" + name
  }

  function TrimPrefix(s: string, prefix: string): string {
    if prefix <= s then s[|prefix|..] else s
  }

  /** What the list functions make of a key. */
  function NameOf(r: Registry, key: string): string {
    TrimPrefix(key, PrefixOf(r) + "/")
  }

  lemma NameOfKey(r: Registry, name: string)
    ensures PrefixOf(r) <= Key(r, name) && Key(r, name) != ""
    ensures NameOf(r, Key(r, name)) == name
  {
  }

  /** Four characters at fixed places tell the prefixes apart. */
  function Mark(s: string): string
    requires |s| >= 15
  {
    [s[10], s[11], s[12], s[14]]
  }

  lemma MarkOf(r: Registry)
    ensures |PrefixOf(r)| >= 15
    ensures Mark(PrefixOf(r)) ==
            match r
            case Nodes => "nods"
            case Edges => "edgs"
            case NetworkACLs => "neto"
            case Routes => "roue"
            case Roles => "rols"
            case RoleBindings => "rolb"
            case Groups => "grop"
            case MeshState => "mess"
  {
  }

  lemma MarkOfExtension(s: string, t: string)
    requires s <= t && |s| >= 15
    ensures Mark(t) == Mark(s)
  {
    assert t[..|s|] == s;
  }

  lemma MarksDiffer(r: Registry, r': Registry)
    requires r != r'
    ensures |PrefixOf(r)| >= 15 && |PrefixOf(r')| >= 15 && Mark(PrefixOf(r)) != Mark(PrefixOf(r'))
  {
    MarkOf(r);
    MarkOf(r');
    var m, m' := Mark(PrefixOf(r)), Mark(PrefixOf(r'));
    assert m[0] != m'[0] || m[1] != m'[1] || m[2] != m'[2] || m[3] != m'[3];
  }

  /** No key of one registry is listed under the prefix of another. */
  lemma PrefixesApart(r: Registry, r': Registry, name: string)
    requires r != r'
    ensures !(PrefixOf(r') <= Key(r, name))
  {
    MarksDiffer(r, r');
    MarkOfExtension(PrefixOf(r), Key(r, name));
    if PrefixOf(r') <= Key(r, name) {
      MarkOfExtension(PrefixOf(r'), Key(r, name));
      assert false;
    }
  }

  lemma KeysApart(r: Registry, name: string, r': Registry, name': string)
    ensures Key(r, name) == Key(r', name') <==> r == r' && name == name'
  {
    NameOfKey(r, name);
    NameOfKey(r', name');
    if r != r' {
      PrefixesApart(r, r', name);
    }
  }

  // ---------------------------------------------------------------------------------------------
  // Registries do not interfere
  // ---------------------------------------------------------------------------------------------

  datatype Op<V> = Put(r: Registry, name: string, value: V) | Delete(r: Registry, name: string)

  function Run<V>(db: map<string, V>, ops: seq<Op<V>>): map<string, V> {
    if ops == [] then db else
      var before := Run(db, ops[..|ops| - 1]);
      match ops[|ops| - 1]
      case Put(r, name, value) => AfterPut(before, Key(r, name), value)
      case Delete(r, name) => AfterDelete(before, Key(r, name))
  }

  /** One registry by itself: a map from names, which the operations on other registries do not touch. */
  function Alone<V>(r: Registry, ops: seq<Op<V>>): map<string, V> {
    if ops == [] then map[] else
      var before := Alone(r, ops[..|ops| - 1]);
      var op := ops[|ops| - 1];
      if op.r != r then before
      else if op.Put? then before[op.name := op.value]
      else before - {op.name}
  }

  /** Under the prefix of `r` the storage holds exactly these records. */
  ghost predicate Holds<V>(db: map<string, V>, r: Registry, records: map<string, V>) {
    && (forall name :: name in records ==> Key(r, name) in db && db[Key(r, name)] == records[name])
    && (forall k :: k in db && PrefixOf(r) <= k ==> NameOf(r, k) in records && Key(r, NameOf(r, k)) == k)
  }

  lemma HoldsPutElsewhere<V>(db: map<string, V>, r: Registry, records: map<string, V>, k: string, value: V)
    requires Holds(db, r, records) && !(PrefixOf(r) <= k)
    ensures Holds(db[k := value], r, records)
  {
    forall name | name in records ensures Key(r, name) != k {
      NameOfKey(r, name);
    }
  }

  lemma HoldsDeleteElsewhere<V>(db: map<string, V>, r: Registry, records: map<string, V>, k: string)
    requires Holds(db, r, records) && !(PrefixOf(r) <= k)
    ensures Holds(db - {k}, r, records)
  {
    forall name | name in records ensures Key(r, name) != k {
      NameOfKey(r, name);
    }
  }

  lemma HoldsPutHere<V>(db: map<string, V>, r: Registry, records: map<string, V>, name: string, value: V)
    requires Holds(db, r, records)
    ensures Holds(db[Key(r, name) := value], r, records[name := value])
  {
    NameOfKey(r, name);
    forall n | n in records && n != name ensures Key(r, n) != Key(r, name) {
      NameOfKey(r, n);
    }
  }

  lemma HoldsDeleteHere<V>(db: map<string, V>, r: Registry, records: map<string, V>, name: string)
    requires Holds(db, r, records)
    ensures Holds(db - {Key(r, name)}, r, records - {name})
  {
    NameOfKey(r, name);
    forall n | n in records && n != name ensures Key(r, n) != Key(r, name) {
      NameOfKey(r, n);
    }
  }

  lemma HoldsStep<V>(db: map<string, V>, r: Registry, records: map<string, V>, op: Op<V>)
    requires Holds(db, r, records)
    ensures Holds(if op.Put? then AfterPut(db, Key(op.r, op.name), op.value) else AfterDelete(db, Key(op.r, op.name)),
                  r,
                  if op.r != r then records else if op.Put? then records[op.name := op.value] else records - {op.name})
  {
    NameOfKey(op.r, op.name);
    if op.r != r {
      PrefixesApart(op.r, r, op.name);
      if op.Put? {
        HoldsPutElsewhere(db, r, records, Key(op.r, op.name), op.value);
      } else {
        HoldsDeleteElsewhere(db, r, records, Key(op.r, op.name));
      }
    } else if op.Put? {
      HoldsPutHere(db, r, records, op.name, op.value);
    } else {
      HoldsDeleteHere(db, r, records, op.name);
    }
  }

  /** After any operations on all registries, each one holds what its own operations alone put there. */
  lemma {:induction false} RegistriesDoNotInterfere<V>(r: Registry, ops: seq<Op<V>>)
    ensures Holds(Run(map[], ops), r, Alone(r, ops))
  {
    if ops != [] {
      var front := ops[..|ops| - 1];
      RegistriesDoNotInterfere(r, front);
      HoldsStep(Run(map[], front), r, Alone(r, front), ops[|ops| - 1]);
    }
  }

  /** Listing by the bare prefix and trimming the keys gives exactly the names of the registry. */
  lemma ListedNames<V>(r: Registry, ops: seq<Op<V>>)
    ensures (set k | k in KeysUnder(Run(map[], ops), PrefixOf(r)) :: NameOf(r, k)) == Alone(r, ops).Keys
  {
    RegistriesDoNotInterfere(r, ops);
    var db, records := Run(map[], ops), Alone(r, ops);
    forall name | name in records
      ensures Key(r, name) in KeysUnder(db, PrefixOf(r)) && NameOf(r, Key(r, name)) == name
    {
      NameOfKey(r, name);
    }
  }

  // ---------------------------------------------------------------------------------------------
  // Edge keys
  // ---------------------------------------------------------------------------------------------

  predicate SlashFree(s: string) {
    '/' !in s
  }

  function EdgeName(source: string, target: string): string {
    source + "/" + target
  }

  function EdgeKey(source: string, target: string): string {
    Key(Edges, EdgeName(source, target))
  }

  function FirstSlash(s: string): (i: nat)
    ensures i <= |s| && SlashFree(s[..i])
    ensures i < |s| ==> s[i] == '/'
  {
    if s == [] || s[0] == '/' then 0 else
      var i := FirstSlash(s[1..]);
      assert s[..1 + i] == [s[0]] + s[1..][..i];
      1 + i
  }

  /** strings.Split(s, "/"). */
  function Split(s: string): (parts: seq<string>)
    ensures |parts| >= 1
    decreases |s|
  {
    var i := FirstSlash(s);
    if i == |s| then [s] else [s[..i]] + Split(s[i + 1..])
  }

  /** The source and target of an edge key, when it has exactly two parts. */
  function ParseEdge(key: string): Option<(string, string)> {
    var parts := Split(NameOf(Edges, key));
    if |parts| == 2 then Some((parts[0], parts[1])) else None
  }

  lemma FirstSlashOf(a: string, b: string)
    requires SlashFree(a)
    ensures FirstSlash(a + "/" + b) == |a|
  {
    var s := a + "/" + b;
    var i := FirstSlash(s);
    assert s[|a|] == '/';
    assert forall k :: 0 <= k < |a| ==> s[k] == a[k] && a[k] != '/';
    assert forall k :: 0 <= k < i ==> s[..i][k] == s[k];
  }

  lemma SplitWhole(a: string)
    ensures SlashFree(a) ==> Split(a) == [a]
    ensures !SlashFree(a) ==> |Split(a)| >= 2
  {
    var i := FirstSlash(a);
    if SlashFree(a) {
      assert i == |a|;
    } else {
      assert a[..|a|] == a;
    }
  }

  lemma SplitFront(a: string, b: string)
    requires SlashFree(a)
    ensures Split(a + "/" + b) == [a] + Split(b)
  {
    FirstSlashOf(a, b);
    assert (a + "/" + b)[..|a|] == a && (a + "/" + b)[|a| + 1..] == b;
  }

  lemma NotSlashFree(a: string, b: string)
    ensures !SlashFree(a + "/" + b)
  {
    assert (a + "/" + b)[|a|] == '/';
  }

  lemma Reassociate(a: string, b: string, c: string)
    ensures EdgeName(EdgeName(a, b), c) == EdgeName(a, EdgeName(b, c))
  {
  }

  lemma SplitThree(head: string, tail: string, b: string)
    requires SlashFree(head)
    ensures |Split(head + "/" + (tail + "/" + b))| > 2
  {
    SplitFront(head, tail + "/" + b);
    NotSlashFree(tail, b);
    SplitWhole(tail + "/" + b);
  }

  lemma CutAtSlash(a: string) returns (head: string, tail: string)
    requires !SlashFree(a)
    ensures SlashFree(head) && a == EdgeName(head, tail)
  {
    var i := FirstSlash(a);
    assert a[..|a|] == a;
    head, tail := a[..i], a[i + 1..];
  }

  lemma SplitManyParts(a: string, b: string)
    requires !SlashFree(a) || !SlashFree(b)
    ensures |Split(EdgeName(a, b))| > 2
  {
    if SlashFree(a) {
      SplitFront(a, b);
      SplitWhole(b);
    } else {
      var head, tail := CutAtSlash(a);
      Reassociate(head, tail, b);
      SplitThree(head, tail, b);
    }
  }

  /** Printing an edge key and parsing it back is the identity exactly on IDs without slashes. */
  lemma ParseEdgeKey(source: string, target: string)
    ensures ParseEdge(EdgeKey(source, target)) ==
            if SlashFree(source) && SlashFree(target) then Some((source, target)) else None
  {
    NameOfKey(Edges, EdgeName(source, target));
    if SlashFree(source) && SlashFree(target) {
      SplitFront(source, target);
      SplitWhole(target);
    } else {
      SplitManyParts(source, target);
    }
  }

  lemma EdgeKeysApart(a: string, b: string, c: string, d: string)
    requires SlashFree(a) && SlashFree(b) && SlashFree(c) && SlashFree(d)
    ensures EdgeKey(a, b) == EdgeKey(c, d) <==> a == c && b == d
  {
    ParseEdgeKey(a, b);
    ParseEdgeKey(c, d);
  }

  /** With slashes two different edges may share one key. */
  lemma SlashesCollide(a: string, b: string, c: string)
    ensures EdgeKey(a + "/" + b, c) == EdgeKey(a, b + "/" + c)
  {
    Reassociate(a, b, c);
  }

  /** An edge has its key to itself exactly when its ends have no slashes. */
  lemma EdgeKeyUnique(a: string, b: string)
    ensures (forall c, d :: EdgeKey(c, d) == EdgeKey(a, b) ==> c == a && d == b) <==> SlashFree(a) && SlashFree(b)
  {
    if SlashFree(a) && SlashFree(b) {
      forall c, d | EdgeKey(c, d) == EdgeKey(a, b) ensures c == a && d == b {
        ParseEdgeKey(a, b);
        ParseEdgeKey(c, d);
      }
    } else if !SlashFree(a) {
      var x, y := CutAtSlash(a);
      SlashesCollide(x, y, b);
      assert x != a;
      assert EdgeKey(x, y + "/" + b) == EdgeKey(a, b);
    } else {
      var x, y := CutAtSlash(b);
      SlashesCollide(a, x, y);
      assert y != b;
      assert EdgeKey(a + "/" + x, y) == EdgeKey(a, b);
    }
  }

  /** The keys of nodes and edges as they are documented. */
  lemma RecordKeys(id: string, a: string, b: string)
    ensures Key(Nodes, id) == "/registry/nodes/" + id
    ensures EdgeKey(a, b) == "/registry/edges/" + a + "/" + b
  {
    assert EdgeKey(a, b) == "/registry/edges" + "/" + (a + "/" + b);
  }
}
