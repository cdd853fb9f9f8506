/**
 Network ACL evaluation (pkg/meshdb/networking/eval.go).

 An ACL caches group expansion in itself: Matches replaces "group:<name>" entries of its node lists
 by the group's members and keeps the result. The `...Step` functions say exactly what one such call
 does, for every iteration order of its Go map; the `Pure...` predicates say what an ACL means.
 */
module NetworkAcls {
  import opened Wrappers
  import opened MeshData
  import opened Wildcards

  /** A stored group, or a record that GetGroup fails to decode. */
  datatype GroupRecord = Corrupt | Group(subjects: seq<Subject>)

  type Groups = map<string, GroupRecord>

  datatype AclAction = ACTION_UNKNOWN | ACTION_ACCEPT | ACTION_DENY | OtherAction(n: int)

  datatype NetworkAction = NetworkAction(
    srcNode: string, dstNode: string, srcCidr: string, dstCidr: string, protocol: string, port: nat)

  datatype Acl = Acl(
    name: string, priority: int, action: AclAction,
    srcNodes: seq<string>, dstNodes: seq<string>, srcCidrs: seq<string>, dstCidrs: seq<string>,
    protocols: seq<string>, ports: seq<nat>)

  // ---------------------------------------------------------------------------------------------
  // What an ACL means
  // ---------------------------------------------------------------------------------------------

  const GROUP_PREFIX := "group:"

  predicate IsRef(entry: string) {
    GROUP_PREFIX <= entry
  }

  function RefName(entry: string): (name: string)
    requires IsRef(entry)
    ensures RefTo(name) == entry
  {
    entry[|GROUP_PREFIX|..]
  }

  function RefTo(name: string): (entry: string)
    ensures IsRef(entry) && entry[|GROUP_PREFIX|..] == name
  {
    GROUP_PREFIX + name
  }

  /** The members an ACL takes from a group; users are not nodes. */
  function NodeMembers(subjects: seq<Subject>): seq<string> {
    if subjects == [] then [] else
      (if subjects[0].kind == SUBJECT_ALL || subjects[0].kind == SUBJECT_NODE then [subjects[0].name] else [])
      + NodeMembers(subjects[1..])
  }

  predicate Broken(groups: Groups, entry: string) {
    IsRef(entry) && RefName(entry) in groups && groups[RefName(entry)].Corrupt?
  }

  /** A reference to a stored group that has node members. */
  predicate Live(groups: Groups, entry: string) {
    && IsRef(entry)
    && RefName(entry) in groups
    && groups[RefName(entry)].Group?
    && NodeMembers(groups[RefName(entry)].subjects) != []
  }

  function MembersOf(groups: Groups, name: string): (m: seq<string>) {
    if name in groups && groups[name].Group? then NodeMembers(groups[name].subjects) else []
  }

  predicate AnyBroken(groups: Groups, nodes: seq<string>) {
    exists e :: e in nodes && Broken(groups, e)
  }

  /** One level of expansion; references that are missing or empty stand for themselves. */
  function Expansion(groups: Groups, nodes: seq<string>): set<string> {
    (set e | e in nodes && !Live(groups, e))
    + (set e, m | e in nodes && Live(groups, e) && m in MembersOf(groups, RefName(e)) :: m)
  }

  predicate ContainsMatch(patterns: set<string>, s: string) {
    exists v :: v in patterns && WildcardMatch(v, s)
  }

  predicate PureNodes(groups: Groups, nodes: seq<string>, s: string) {
    s == "" || (!AnyBroken(groups, nodes) && ContainsMatch(Expansion(groups, nodes), s))
  }

  predicate PureField(patterns: seq<string>, s: string) {
    s == "" || ContainsMatch(SetOf(patterns), s)
  }

  predicate RestMatches(acl: Acl, a: NetworkAction) {
    && PureField(acl.srcCidrs, a.srcCidr)
    && PureField(acl.dstCidrs, a.dstCidr)
    && PureField(acl.protocols, a.protocol)
    && (a.port == 0 || a.port in acl.ports)
  }

  /** The action matches on every field it sets; an empty list matches no set field. */
  predicate PureMatches(groups: Groups, acl: Acl, a: NetworkAction) {
    PureNodes(groups, acl.srcNodes, a.srcNode) && PureNodes(groups, acl.dstNodes, a.dstNode) && RestMatches(acl, a)
  }

  /** The first match decides; no match denies. */
  predicate PureAccept(groups: Groups, acls: seq<Acl>, a: NetworkAction) {
    acls != [] &&
    if PureMatches(groups, acls[0], a) then acls[0].action == ACTION_ACCEPT else PureAccept(groups, acls[1..], a)
  }

  // ---------------------------------------------------------------------------------------------
  // What one call does
  // ---------------------------------------------------------------------------------------------

  /** The loop that fills the `groups` map of Matches; a group that fails to decode ends the call. */
  function Collect(groups: Groups, nodes: seq<string>, acc: map<string, seq<string>>)
    : Option<map<string, seq<string>>>
  {
    if nodes == [] then Some(acc)
    else if !IsRef(nodes[0]) || nodes[0] in acc then Collect(groups, nodes[1..], acc)
    else
      var name := RefName(nodes[0]);
      if Broken(groups, nodes[0]) then None
      else if !Live(groups, nodes[0]) then Collect(groups, nodes[1..], acc)
      else Collect(groups, nodes[1..], acc[name := (if name in acc then acc[name] else []) + MembersOf(groups, name)])
  }

  function Replaced(nodes: seq<string>, obj: string, with: seq<string>): seq<string> {
    if nodes == [] then [] else
      (if nodes[0] == obj then with else [nodes[0]]) + Replaced(nodes[1..], obj, with)
  }

  /** Replacing group after group, in the order in which Go happened to iterate the map. */
  function ReplacedAll(nodes: seq<string>, order: seq<string>, members: map<string, seq<string>>): seq<string> {
    if order == [] then nodes else
      var before := ReplacedAll(nodes, order[..|order| - 1], members);
      var name := order[|order| - 1];
      if name in members then Replaced(before, RefTo(name), members[name]) else before
  }

  ghost predicate Enumerates(order: seq<string>, names: set<string>) {
    Distinct(order) && SetOf(order) == names
  }

  ghost predicate ValidOrder(groups: Groups, nodes: seq<string>, order: seq<string>) {
    Collect(groups, nodes, map[]).Some? ==> Enumerates(order, Collect(groups, nodes, map[]).value.Keys)
  }

  /** The answer for one node list, and the list left behind. */
  function NodesStep(groups: Groups, nodes: seq<string>, s: string, order: seq<string>): (bool, seq<string>) {
    if s == "" then (true, nodes) else
      match Collect(groups, nodes, map[])
      case None => (false, nodes)
      case Some(members) =>
        var nodes' := ReplacedAll(nodes, order, members);
        (ContainsMatch(SetOf(nodes'), s), nodes')
  }

  /** An action to evaluate, with the iteration order of the two maps the call builds. */
  datatype Call = Call(action: NetworkAction, srcOrder: seq<string>, dstOrder: seq<string>)

  /** The answer of one Matches call, and the ACL it leaves behind. */
  function MatchesStep(groups: Groups, acl: Acl, c: Call): (bool, Acl) {
    var (src, srcNodes) := NodesStep(groups, acl.srcNodes, c.action.srcNode, c.srcOrder);
    var acl1 := acl.(srcNodes := srcNodes);
    if !src then (false, acl1) else
      var (dst, dstNodes) := NodesStep(groups, acl.dstNodes, c.action.dstNode, c.dstOrder);
      var acl2 := acl1.(dstNodes := dstNodes);
      (dst && RestMatches(acl, c.action), acl2)
  }

  ghost predicate ValidCall(groups: Groups, acl: Acl, c: Call) {
    && (c.action.srcNode != "" ==> ValidOrder(groups, acl.srcNodes, c.srcOrder))
    && (NodesStep(groups, acl.srcNodes, c.action.srcNode, c.srcOrder).0 && c.action.dstNode != ""
        ==> ValidOrder(groups, acl.dstNodes, c.dstOrder))
  }

  // ---------------------------------------------------------------------------------------------
  // The cache is transparent on flat lists
  // ---------------------------------------------------------------------------------------------

  /**
   No reference leads to another one: neither the name nor a member of a live group is itself a reference
   that would expand or fail. Missing and empty references are harmless. Names matter because Matches
   looks up whole entries in a map that is keyed by names.
   */
  ghost predicate Flat(groups: Groups, nodes: seq<string>) {
    && Named(groups, nodes)
    && forall e :: e in nodes && Live(groups, e) ==>
         forall m :: m in MembersOf(groups, RefName(e)) ==> !Live(groups, m) && !Broken(groups, m)
  }

  ghost predicate Named(groups: Groups, nodes: seq<string>) {
    forall e :: e in nodes && Live(groups, e) ==> !Live(groups, RefName(e)) && !Broken(groups, RefName(e))
  }

  ghost predicate Collected(groups: Groups, members: map<string, seq<string>>) {
    forall name :: name in members ==>
      !Live(groups, name) && !Broken(groups, name) && Live(groups, RefTo(name))
          && SetOf(members[name]) == SetOf(MembersOf(groups, name))
  }

  ghost function LiveNames(groups: Groups, nodes: seq<string>): set<string> {
    set e | e in nodes && Live(groups, e) :: RefName(e)
  }

  lemma CollectedPut(groups: Groups, acc: map<string, seq<string>>, name: string)
    requires Collected(groups, acc) && !Live(groups, name) && !Broken(groups, name) && Live(groups, RefTo(name))
    ensures Collected(groups, acc[name := (if name in acc then acc[name] else []) + MembersOf(groups, name)])
  {
    var before := if name in acc then acc[name] else [];
    SetOfConcat(before, MembersOf(groups, name));
  }

  lemma SplitNames(groups: Groups, nodes: seq<string>)
    requires nodes != []
    ensures AnyBroken(groups, nodes) <==> Broken(groups, nodes[0]) || AnyBroken(groups, nodes[1..])
    ensures LiveNames(groups, nodes) ==
            LiveNames(groups, nodes[1..]) + if Live(groups, nodes[0]) then {RefName(nodes[0])} else {}
  {
    assert forall e :: e in nodes <==> e == nodes[0] || e in nodes[1..] by { assert nodes == [nodes[0]] + nodes[1..]; }
  }

  /** One round of the collecting loop. */
  lemma CollectRound(groups: Groups, nodes: seq<string>, acc: map<string, seq<string>>)
    returns (acc': map<string, seq<string>>)
    requires Named(groups, nodes) && Collected(groups, acc) && nodes != [] && !Broken(groups, nodes[0])
    ensures Named(groups, nodes[1..]) && Collected(groups, acc')
    ensures Collect(groups, nodes, acc) == Collect(groups, nodes[1..], acc')
    ensures acc'.Keys == acc.Keys + if Live(groups, nodes[0]) then {RefName(nodes[0])} else {}
  {
    if Live(groups, nodes[0]) {
      var name := RefName(nodes[0]);
      CollectedPut(groups, acc, name);
      acc' := acc[name := (if name in acc then acc[name] else []) + MembersOf(groups, name)];
    } else {
      acc' := acc;
    }
  }

  lemma {:induction false} CollectMeaning(groups: Groups, nodes: seq<string>, acc: map<string, seq<string>>)
    requires Named(groups, nodes) && Collected(groups, acc)
    ensures Collect(groups, nodes, acc).None? <==> AnyBroken(groups, nodes)
    ensures var r := Collect(groups, nodes, acc);
            r.Some? ==> Collected(groups, r.value) && r.value.Keys == acc.Keys + LiveNames(groups, nodes)
    decreases |nodes|
  {
    if nodes != [] {
      SplitNames(groups, nodes);
      if !Broken(groups, nodes[0]) {
        var acc' := CollectRound(groups, nodes, acc);
        CollectMeaning(groups, nodes[1..], acc');
      }
    }
  }

  lemma {:induction false} ReplacedSet(nodes: seq<string>, obj: string, with: seq<string>)
    ensures SetOf(Replaced(nodes, obj, with))
         == (SetOf(nodes) - {obj}) + (if obj in nodes then SetOf(with) else {})
    ensures obj !in nodes ==> Replaced(nodes, obj, with) == nodes
  {
    if nodes != [] {
      ReplacedSet(nodes[1..], obj, with);
      assert nodes == [nodes[0]] + nodes[1..];
      SetOfConcat([nodes[0]], nodes[1..]);
      SetOfConcat(if nodes[0] == obj then with else [nodes[0]], Replaced(nodes[1..], obj, with));
    }
  }

  /** What replacing the groups in `names` leaves: the other entries, and the members of these. */
  ghost function Partial(nodes: seq<string>, names: set<string>, members: map<string, seq<string>>): set<string>
    requires names <= members.Keys
  {
    (set e | e in nodes && !(IsRef(e) && RefName(e) in names))
    + (set e, m | e in nodes && IsRef(e) && RefName(e) in names && m in members[RefName(e)] :: m)
  }

  lemma {:induction false} ReplacedAllSet(groups: Groups, nodes: seq<string>, order: seq<string>,
      members: map<string, seq<string>>)
    requires Flat(groups, nodes) && Collected(groups, members) && members.Keys == LiveNames(groups, nodes)
    requires Distinct(order) && SetOf(order) <= members.Keys
    ensures SetOf(ReplacedAll(nodes, order, members)) == Partial(nodes, SetOf(order), members)
  {
    if order != [] {
      var front, name := order[..|order| - 1], order[|order| - 1];
      assert order == front + [name];
      SetOfAppend(front, name);
      assert name in SetOf(order) && name !in front;
      ReplacedAllSet(groups, nodes, front, members);
      var before := ReplacedAll(nodes, front, members);
      ReplacedSet(before, RefTo(name), members[name]);
      MembersAreNotLive(groups, nodes, members, RefTo(name));
      assert RefTo(name) in nodes by {
        var e :| e in nodes && Live(groups, e) && RefName(e) == name;
      }
      assert RefTo(name) in SetOf(before);
      PartialGrows(groups, nodes, SetOf(front), name, members);
    }
  }

  lemma MembersAreNotLive(groups: Groups, nodes: seq<string>, members: map<string, seq<string>>, live: string)
    requires Flat(groups, nodes) && Collected(groups, members) && members.Keys == LiveNames(groups, nodes)
    requires Live(groups, live)
    ensures forall name :: name in members ==> live !in members[name]
  {
    forall name | name in members ensures live !in members[name] {
      var e :| e in nodes && Live(groups, e) && RefName(e) == name;
      assert live !in SetOf(MembersOf(groups, RefName(e)));
    }
  }

  lemma PartialGrows(groups: Groups, nodes: seq<string>, names: set<string>, name: string,
      members: map<string, seq<string>>)
    requires names + {name} <= members.Keys && name !in names && RefTo(name) in nodes
    requires forall n :: n in members ==> RefTo(name) !in members[n]
    ensures Partial(nodes, names + {name}, members)
         == (Partial(nodes, names, members) - {RefTo(name)}) + SetOf(members[name])
  {
    var a := Partial(nodes, names + {name}, members);
    var b := (Partial(nodes, names, members) - {RefTo(name)}) + SetOf(members[name]);
    assert RefName(RefTo(name)) == name;
    forall x | x in b ensures x in a {
      if x in members[name] {
        assert RefTo(name) in nodes && RefName(RefTo(name)) in names + {name} && x in members[RefName(RefTo(name))];
      } else if x in nodes && !(IsRef(x) && RefName(x) in names) {
        assert !(IsRef(x) && RefName(x) == name);
      } else {
        var e :| e in nodes && IsRef(e) && RefName(e) in names && x in members[RefName(e)];
        assert RefName(e) in names + {name};
      }
    }
  }

  /** A node list before and after a call: same expansion, same failure, and still flat. */
  ghost predicate SameNodes(groups: Groups, nodes: seq<string>, nodes': seq<string>) {
    && Expansion(groups, nodes') == Expansion(groups, nodes)
    && (AnyBroken(groups, nodes') <==> AnyBroken(groups, nodes))
    && Flat(groups, nodes')
  }

  lemma PartialIsExpansion(groups: Groups, nodes: seq<string>, members: map<string, seq<string>>)
    requires Collected(groups, members) && members.Keys == LiveNames(groups, nodes)
    ensures Partial(nodes, members.Keys, members) == Expansion(groups, nodes)
  {
    forall e | e in nodes && IsRef(e)
      ensures RefName(e) in members <==> Live(groups, e)
      ensures RefName(e) in members ==> forall m :: m in members[RefName(e)] <==> m in MembersOf(groups, RefName(e))
    {
      assert RefTo(RefName(e)) == e;
      if RefName(e) in members {
        SameElements(members[RefName(e)], MembersOf(groups, RefName(e)));
      }
    }
  }

  /** An expanded list holds nothing that would expand or fail again. */
  lemma ExpansionIsFinal(groups: Groups, nodes: seq<string>, nodes': seq<string>)
    requires Flat(groups, nodes) && !AnyBroken(groups, nodes)
    requires SetOf(nodes') == Expansion(groups, nodes)
    ensures SameNodes(groups, nodes, nodes')
  {
    forall x | x in nodes' ensures !Live(groups, x) && !Broken(groups, x) {
      assert x in SetOf(nodes');
    }
    assert Expansion(groups, nodes') == SetOf(nodes');
  }

  lemma NodesStepMeaning(groups: Groups, nodes: seq<string>, s: string, order: seq<string>)
    requires Flat(groups, nodes) && (s != "" ==> ValidOrder(groups, nodes, order))
    ensures NodesStep(groups, nodes, s, order).0 <==> PureNodes(groups, nodes, s)
    ensures SameNodes(groups, nodes, NodesStep(groups, nodes, s, order).1)
  {
    if s != "" {
      CollectMeaning(groups, nodes, map[]);
      if !AnyBroken(groups, nodes) {
        var members := Collect(groups, nodes, map[]).value;
        ReplacedAllSet(groups, nodes, order, members);
        PartialIsExpansion(groups, nodes, members);
        ExpansionIsFinal(groups, nodes, ReplacedAll(nodes, order, members));
      }
    }
  }

  ghost predicate FlatAcl(groups: Groups, acl: Acl) {
    Flat(groups, acl.srcNodes) && Flat(groups, acl.dstNodes)
  }

  /** Two forms of one ACL: they differ at most in how far their node lists have been expanded. */
  ghost predicate SameAcl(groups: Groups, acl: Acl, acl': Acl) {
    && acl' == acl.(srcNodes := acl'.srcNodes, dstNodes := acl'.dstNodes)
    && SameNodes(groups, acl.srcNodes, acl'.srcNodes)
    && SameNodes(groups, acl.dstNodes, acl'.dstNodes)
  }

  lemma SameAclMatches(groups: Groups, acl: Acl, acl': Acl, a: NetworkAction)
    requires SameAcl(groups, acl, acl')
    ensures PureMatches(groups, acl', a) == PureMatches(groups, acl, a) && acl'.action == acl.action
  {
  }

  lemma MatchesStepMeaning(groups: Groups, acl: Acl, c: Call)
    requires FlatAcl(groups, acl) && ValidCall(groups, acl, c)
    ensures MatchesStep(groups, acl, c).0 <==> PureMatches(groups, acl, c.action)
    ensures SameAcl(groups, acl, MatchesStep(groups, acl, c).1)
  {
    NodesStepMeaning(groups, acl.srcNodes, c.action.srcNode, c.srcOrder);
    if NodesStep(groups, acl.srcNodes, c.action.srcNode, c.srcOrder).0 {
      NodesStepMeaning(groups, acl.dstNodes, c.action.dstNode, c.dstOrder);
    }
  }

  /** The answers of a sequence of calls on one ACL that rewrites itself as it goes. */
  function Answers(groups: Groups, acl: Acl, calls: seq<Call>): (bs: seq<bool>)
    ensures |bs| == |calls|
    decreases |calls|
  {
    if calls == [] then [] else
      var (b, acl') := MatchesStep(groups, acl, calls[0]);
      [b] + Answers(groups, acl', calls[1..])
  }

  ghost predicate ValidRun(groups: Groups, acl: Acl, calls: seq<Call>)
    decreases |calls|
  {
    calls == [] ||
    (ValidCall(groups, acl, calls[0]) && ValidRun(groups, MatchesStep(groups, acl, calls[0]).1, calls[1..]))
  }

  lemma AnswersAt(groups: Groups, acl: Acl, calls: seq<Call>, i: nat, acl': Acl)
    requires i < |calls| && acl' == MatchesStep(groups, acl, calls[0]).1
    ensures i == 0 ==> Answers(groups, acl, calls)[i] == MatchesStep(groups, acl, calls[0]).0
    ensures i > 0 ==> Answers(groups, acl, calls)[i] == Answers(groups, acl', calls[1..])[i - 1]
    ensures ValidRun(groups, acl, calls) ==> ValidCall(groups, acl, calls[0]) && ValidRun(groups, acl', calls[1..])
  {
  }

  lemma SameAclIsFlat(groups: Groups, acl: Acl, acl': Acl)
    requires SameAcl(groups, acl, acl')
    ensures FlatAcl(groups, acl')
  {
  }

  /** Over any run, in any iteration orders, the cached ACL answers as the original would. */
  lemma {:induction false} CacheTransparent(groups: Groups, acl: Acl, calls: seq<Call>, i: nat)
    requires FlatAcl(groups, acl) && ValidRun(groups, acl, calls) && i < |calls|
    ensures Answers(groups, acl, calls)[i] == PureMatches(groups, acl, calls[i].action)
    decreases i
  {
    var acl' := MatchesStep(groups, acl, calls[0]).1;
    AnswersAt(groups, acl, calls, i, acl');
    MatchesStepMeaning(groups, acl, calls[0]);
    if i > 0 {
      SameAclIsFlat(groups, acl, acl');
      CacheTransparent(groups, acl', calls[1..], i - 1);
      SameAclMatches(groups, acl, acl', calls[i].action);
    }
  }

  // ---------------------------------------------------------------------------------------------
  // In the terms of patterns and groups
  // ---------------------------------------------------------------------------------------------

  lemma {:induction false} NodeMembersExact(subjects: seq<Subject>, m: string)
    ensures m in NodeMembers(subjects) <==>
            exists x :: x in subjects && (x.kind == SUBJECT_ALL || x.kind == SUBJECT_NODE) && x.name == m
  {
    if subjects != [] {
      NodeMembersExact(subjects[1..], m);
      assert subjects == [subjects[0]] + subjects[1..];
    }
  }

  /** The entry is "group:" followed by the name of a stored group with these subjects. */
  predicate RefersTo(groups: Groups, entry: string, subjects: seq<Subject>) {
    "group:" <= entry && entry[6..] in groups && groups[entry[6..]] == Group(subjects)
  }

  predicate IsNode(x: Subject) {
    x.kind == SUBJECT_ALL || x.kind == SUBJECT_NODE
  }

  /** The entry stands for the node: through a node subject of the group it refers to, or else as a glob. */
  ghost predicate StandsFor(groups: Groups, entry: string, s: string) {
    if exists subjects, x :: RefersTo(groups, entry, subjects) && x in subjects && IsNode(x)
    then exists subjects, x :: RefersTo(groups, entry, subjects) && x in subjects && IsNode(x) && Glob(x.name, s)
    else Glob(entry, s)
  }

  /** No entry refers to a group that does not decode, and some entry stands for the node. */
  ghost predicate ListNames(groups: Groups, nodes: seq<string>, s: string) {
    && (forall e :: e in nodes && "group:" <= e && e[6..] in groups ==> groups[e[6..]].Group?)
    && exists e :: e in nodes && StandsFor(groups, e, s)
  }

  ghost predicate Globbed(patterns: seq<string>, s: string) {
    exists v :: v in patterns && Glob(v, s)
  }

  /** All patterns of the ACL, those of its groups' members included, are matched as globs on all strings. */
  ghost predicate AllFaithful(groups: Groups, acl: Acl) {
    && (forall v :: v in Expansion(groups, acl.srcNodes) + Expansion(groups, acl.dstNodes) ==> Faithful(v))
    && (forall v :: v in acl.srcCidrs + acl.dstCidrs + acl.protocols ==> Faithful(v))
  }

  lemma LiveExact(groups: Groups, e: string)
    ensures Live(groups, e) <==> exists subjects, x :: RefersTo(groups, e, subjects) && x in subjects && IsNode(x)
    ensures Live(groups, e) ==> RefersTo(groups, e, groups[RefName(e)].subjects)
  {
    if Live(groups, e) {
      var subjects := groups[RefName(e)].subjects;
      NodeMembersExact(subjects, NodeMembers(subjects)[0]);
    }
    if subjects, x :| RefersTo(groups, e, subjects) && x in subjects && IsNode(x) {
      NodeMembersExact(subjects, x.name);
    }
  }

  lemma OneExpansion(groups: Groups, e: string)
    requires Live(groups, e)
    ensures Expansion(groups, [e]) == SetOf(MembersOf(groups, RefName(e)))
  {
    var all, members := Expansion(groups, [e]), MembersOf(groups, RefName(e));
    forall m | m in members ensures m in all {
      assert e in [e] && Live(groups, e) && m in MembersOf(groups, RefName(e));
    }
    forall m | m in all ensures m in members {
      if m in [e] && !Live(groups, m) {
        assert false;
      }
    }
  }

  /** An entry contributes to the expansion what it stands for. */
  lemma EntryMeans(groups: Groups, e: string, s: string)
    requires forall v :: v in Expansion(groups, [e]) ==> Faithful(v)
    ensures StandsFor(groups, e, s) <==> ContainsMatch(Expansion(groups, [e]), s)
  {
    LiveExact(groups, e);
    var all := Expansion(groups, [e]);
    if Live(groups, e) {
      var subjects := groups[RefName(e)].subjects;
      OneExpansion(groups, e);
      if x :| x in subjects && IsNode(x) && Glob(x.name, s) {
        NodeMembersExact(subjects, x.name);
        assert x.name in all && WildcardMatch(x.name, s);
      }
      if v :| v in all && WildcardMatch(v, s) {
        NodeMembersExact(subjects, v);
      }
    } else {
      assert e in all && forall v :: v in all ==> v == e;
    }
  }

  lemma ExpansionByEntry(groups: Groups, nodes: seq<string>, s: string)
    ensures ContainsMatch(Expansion(groups, nodes), s) <==>
            exists e :: e in nodes && ContainsMatch(Expansion(groups, [e]), s)
  {
    if v :| v in Expansion(groups, nodes) && WildcardMatch(v, s) {
      if v in nodes && !Live(groups, v) {
        assert v in Expansion(groups, [v]);
      } else {
        var e :| e in nodes && Live(groups, e) && v in MembersOf(groups, RefName(e));
        assert e in [e] && v in Expansion(groups, [e]);
      }
    }
    if e :| e in nodes && ContainsMatch(Expansion(groups, [e]), s) {
      ExpansionPart(groups, nodes, e);
    }
  }

  lemma ExpansionPart(groups: Groups, nodes: seq<string>, e: string)
    requires e in nodes
    ensures Expansion(groups, [e]) <= Expansion(groups, nodes)
  {
  }

  lemma NodesMean(groups: Groups, nodes: seq<string>, s: string)
    requires forall v :: v in Expansion(groups, nodes) ==> Faithful(v)
    ensures PureNodes(groups, nodes, s) <==> s == "" || ListNames(groups, nodes, s)
  {
    ExpansionByEntry(groups, nodes, s);
    forall e | e in nodes ensures StandsFor(groups, e, s) <==> ContainsMatch(Expansion(groups, [e]), s) {
      ExpansionPart(groups, nodes, e);
      EntryMeans(groups, e, s);
    }
    forall e | e in nodes ensures Broken(groups, e) <==> "group:" <= e && e[6..] in groups && groups[e[6..]].Corrupt? {}
  }

  lemma FieldMeans(patterns: seq<string>, s: string)
    requires forall v :: v in patterns ==> Faithful(v)
    ensures PureField(patterns, s) <==> s == "" || Globbed(patterns, s)
  {
    if s != "" {
      if v :| v in patterns && Glob(v, s) {
        assert v in SetOf(patterns) && WildcardMatch(v, s);
      }
      if v :| v in SetOf(patterns) && WildcardMatch(v, s) {
        assert v in patterns && Glob(v, s);
      }
    }
  }

  /**
   What one call answers, without the words of the code: each field that the action sets is named, as a
   glob, by the list of the ACL for that field; nodes also through the node subjects of stored groups.
   */
  lemma MatchesMeans(groups: Groups, acl: Acl, c: Call)
    requires FlatAcl(groups, acl) && ValidCall(groups, acl, c) && AllFaithful(groups, acl)
    ensures var a := c.action;
            MatchesStep(groups, acl, c).0 <==>
            && (a.srcNode == "" || ListNames(groups, acl.srcNodes, a.srcNode))
            && (a.dstNode == "" || ListNames(groups, acl.dstNodes, a.dstNode))
            && (a.srcCidr == "" || Globbed(acl.srcCidrs, a.srcCidr))
            && (a.dstCidr == "" || Globbed(acl.dstCidrs, a.dstCidr))
            && (a.protocol == "" || Globbed(acl.protocols, a.protocol))
            && (a.port == 0 || a.port in acl.ports)
  {
    var a := c.action;
    MatchesStepMeaning(groups, acl, c);
    NodesMean(groups, acl.srcNodes, a.srcNode);
    NodesMean(groups, acl.dstNodes, a.dstNode);
    FieldMeans(acl.srcCidrs, a.srcCidr);
    FieldMeans(acl.dstCidrs, a.dstCidr);
    FieldMeans(acl.protocols, a.protocol);
  }

  // ---------------------------------------------------------------------------------------------
  // Exactly when the cache is transparent
  // ---------------------------------------------------------------------------------------------

  /** A group with node members. */
  predicate LiveGroup(groups: Groups, name: string) {
    name in groups && groups[name].Group? && NodeMembers(groups[name].subjects) != []
  }

  /** Members and names like references have no stars, and no group lists itself by name or reference. */
  ghost predicate Plain(groups: Groups) {
    forall name :: LiveGroup(groups, name) ==>
      && (IsRef(name) ==> '*' !in name)
      && forall m :: m in MembersOf(groups, name) ==> '*' !in m && (IsRef(m) ==> m != RefTo(name) && m != name)
  }

  /** No group is named like a reference that would expand or fail. */
  ghost predicate NamesApart(groups: Groups) {
    forall name :: LiveGroup(groups, name) ==> !Live(groups, name) && !Broken(groups, name)
  }

  /** No member of a group is a reference that would expand or fail. */
  ghost predicate Unnested(groups: Groups) {
    forall name, m :: LiveGroup(groups, name) && m in MembersOf(groups, name) ==> !Live(groups, m) && !Broken(groups, m)
  }

  /** Every ACL answers, over every run, as its original would. */
  ghost predicate Transparent(groups: Groups) {
    forall acl: Acl, calls: seq<Call>, i: nat :: ValidRun(groups, acl, calls) && i < |calls| ==>
      Answers(groups, acl, calls)[i] == PureMatches(groups, acl, calls[i].action)
  }

  lemma UnnestedIsFlat(groups: Groups, nodes: seq<string>)
    requires Unnested(groups) && NamesApart(groups)
    ensures Flat(groups, nodes)
  {
    forall e | e in nodes && Live(groups, e) ensures LiveGroup(groups, RefName(e)) {}
  }

  lemma {:induction false} Enumeration(names: set<string>) returns (order: seq<string>)
    ensures Enumerates(order, names)
  {
    if names == {} {
      order := [];
    } else {
      var name :| name in names;
      order := Enumeration(names - {name});
      assert name !in SetOf(order);
      SetOfAppend(order, name);
      order := order + [name];
    }
  }

  ghost predicate StarFree(nodes: seq<string>) {
    forall e :: e in nodes ==> '*' !in e
  }

  lemma {:induction false} ReplacedAllStarFree(nodes: seq<string>, order: seq<string>,
      members: map<string, seq<string>>)
    requires StarFree(nodes) && forall name :: name in members ==> StarFree(members[name])
    ensures StarFree(ReplacedAll(nodes, order, members))
  {
    if order != [] {
      var front, name := order[..|order| - 1], order[|order| - 1];
      ReplacedAllStarFree(nodes, front, members);
      if name in members {
        var before := ReplacedAll(nodes, front, members);
        ReplacedSet(before, RefTo(name), members[name]);
        forall e | e in Replaced(before, RefTo(name), members[name]) ensures '*' !in e {
          assert e in SetOf(Replaced(before, RefTo(name), members[name]));
        }
      }
    }
  }

  /** Replacing a group last leaves none of its references, and no other pattern that matches one. */
  lemma LastReplaced(groups: Groups, nodes: seq<string>, front: seq<string>, name: string,
      members: map<string, seq<string>>)
    requires Plain(groups) && StarFree(nodes) && Collected(groups, members) && name in members
    ensures !ContainsMatch(SetOf(ReplacedAll(nodes, front + [name], members)), RefTo(name))
  {
    var order, entry := front + [name], RefTo(name);
    assert order[..|order| - 1] == front;
    MembersStarFree(groups, members);
    ReplacedAllStarFree(nodes, order, members);
    ReplacedSet(ReplacedAll(nodes, front, members), entry, members[name]);
    assert RefName(entry) == name && LiveGroup(groups, name);
    SameElements(members[name], MembersOf(groups, name));
    assert entry !in SetOf(ReplacedAll(nodes, order, members));
  }

  /** A list without stars that holds a live reference can lose it: its group is the last one replaced. */
  lemma ReferenceLost(groups: Groups, nodes: seq<string>, entry: string) returns (order: seq<string>)
    requires Plain(groups) && NamesApart(groups) && StarFree(nodes)
    requires entry in nodes && (Live(groups, entry) || Broken(groups, entry))
    ensures ValidOrder(groups, nodes, order) && !NodesStep(groups, nodes, entry, order).0
  {
    forall e | e in nodes && Live(groups, e) ensures LiveGroup(groups, RefName(e)) {}
    CollectMeaning(groups, nodes, map[]);
    if AnyBroken(groups, nodes) {
      order := [];
    } else {
      var members := Collect(groups, nodes, map[]).value;
      var name := RefName(entry);
      assert name in LiveNames(groups, nodes);
      var front := Enumeration(members.Keys - {name});
      assert name !in SetOf(front);
      SetOfAppend(front, name);
      order := front + [name];
      LastReplaced(groups, nodes, front, name, members);
    }
  }

  lemma MembersStarFree(groups: Groups, members: map<string, seq<string>>)
    requires Plain(groups) && Collected(groups, members)
    ensures forall name :: name in members ==> StarFree(members[name])
  {
    forall name | name in members ensures StarFree(members[name]) {
      assert Live(groups, RefTo(name)) && RefName(RefTo(name)) == name;
      assert LiveGroup(groups, name);
      SameElements(members[name], MembersOf(groups, name));
    }
  }

  /** What one call makes of the list that holds one reference. */
  lemma OneGroup(groups: Groups, name: string, s: string)
    requires LiveGroup(groups, name) && s != ""
    ensures ValidOrder(groups, [RefTo(name)], [name])
    ensures NodesStep(groups, [RefTo(name)], s, [name])
         == (ContainsMatch(SetOf(MembersOf(groups, name)), s), MembersOf(groups, name))
  {
    var ref, m := RefTo(name), MembersOf(groups, name);
    assert RefName(ref) == name && [ref][1..] == [] && [name][..0] == [];
    var members := map[name := [] + m];
    assert Collect(groups, [ref], map[]) == Some(members) && members[name] == m;
    assert ReplacedAll([ref], [], members) == [ref];
    assert Replaced([ref], ref, m) == m + Replaced([], ref, m);
    assert ReplacedAll([ref], [name], members) == m;
    assert SetOf([name]) == {name};
  }

  /** With a nested group, asking for the nested reference itself twice gives two answers. */
  lemma NestedDrifts(groups: Groups, name: string, entry: string) returns (acl: Acl, calls: seq<Call>)
    requires Plain(groups) && NamesApart(groups) && LiveGroup(groups, name) && entry in MembersOf(groups, name)
    requires Live(groups, entry) || Broken(groups, entry)
    ensures ValidRun(groups, acl, calls) && |calls| == 2 && calls[0].action == calls[1].action
    ensures Answers(groups, acl, calls) == [true, false]
  {
    var a := NetworkAction(entry, "", "", "", "", 0);
    acl := Acl("", 0, ACTION_ACCEPT, [RefTo(name)], [], [], [], [], []);
    var nodes := MembersOf(groups, name);
    OneGroup(groups, name, entry);
    assert entry in SetOf(nodes) && WildcardMatch(entry, entry);
    var order := ReferenceLost(groups, nodes, entry);
    var c, c' := Call(a, [name], []), Call(a, order, []);
    var acl' := acl.(srcNodes := nodes);
    assert MatchesStep(groups, acl, c) == (true, acl');
    assert !MatchesStep(groups, acl', c').0;
    calls := [c, c'];
    assert calls[1..] == [c'] && [c'][1..] == [];
    assert ValidRun(groups, acl', [c']);
    assert Answers(groups, acl', [c']) == [false];
  }

  /** A reference whose group is named like the next entry hides that entry from the collecting loop. */
  lemma HiddenEntry(groups: Groups, name: string, s: string)
    requires LiveGroup(groups, name) && IsRef(name) && s != ""
    ensures var nodes := [RefTo(name), name]; var left := MembersOf(groups, name) + [name];
            ValidOrder(groups, nodes, [name])
            && NodesStep(groups, nodes, s, [name]) == (ContainsMatch(SetOf(left), s), left)
  {
    var ref, m := RefTo(name), MembersOf(groups, name);
    var nodes := [ref, name];
    assert RefName(ref) == name && nodes[1..] == [name] && [name][1..] == [] && [name][..0] == [];
    assert ref != name by { assert |ref| == |GROUP_PREFIX| + |name|; }
    var members := map[name := [] + m];
    assert Collect(groups, [name], members) == Some(members);
    assert Collect(groups, nodes, map[]) == Some(members) && members[name] == m;
    assert Replaced([name], ref, m) == [name] + Replaced([], ref, m);
    assert Replaced(nodes, ref, m) == m + [name];
    assert ReplacedAll(nodes, [], members) == nodes;
    assert ReplacedAll(nodes, [name], members) == m + [name];
    assert SetOf([name]) == {name};
  }

  /** So with a group named like a reference to another one, an ACL says yes to what it does not mean. */
  lemma NamedLikeReferenceDrifts(groups: Groups, name: string) returns (acl: Acl, c: Call)
    requires Plain(groups) && LiveGroup(groups, name) && (Live(groups, name) || Broken(groups, name))
    ensures ValidCall(groups, acl, c) && MatchesStep(groups, acl, c).0 && !PureMatches(groups, acl, c.action)
  {
    var a := NetworkAction(name, "", "", "", "", 0);
    var nodes, left := [RefTo(name), name], MembersOf(groups, name) + [name];
    acl := Acl("", 0, ACTION_ACCEPT, nodes, [], [], [], [], []);
    c := Call(a, [name], []);
    HiddenEntry(groups, name, name);
    assert left[|left| - 1] == name && name in SetOf(left) && WildcardMatch(name, name);
    assert MatchesStep(groups, acl, c).0;
    assert name in nodes;
    if Live(groups, name) {
      NotExpanded(groups, name);
    }
  }

  lemma NotExpanded(groups: Groups, name: string)
    requires Plain(groups) && LiveGroup(groups, name) && Live(groups, name)
    ensures !ContainsMatch(Expansion(groups, [RefTo(name), name]), name)
  {
    var inner := RefName(name);
    assert RefName(RefTo(name)) == name && LiveGroup(groups, inner) && RefTo(inner) == name;
    forall v | v in Expansion(groups, [RefTo(name), name]) ensures !WildcardMatch(v, name) {
      assert v in MembersOf(groups, name) || v in MembersOf(groups, inner);
    }
  }

  lemma OneMember(member: string)
    ensures NodeMembers([Subject(member, SUBJECT_NODE)]) == [member]
  {
    assert [Subject(member, SUBJECT_NODE)][1..] == [];
  }

  /**
   Without flatness the cache shows. If one group's only member is a reference to another group, whose
   only member is the node, the same action is first refused and then accepted: the first call uncovers
   the nested reference, and only the second one expands it.
   */
  lemma NestedGroupsDrift(outer: string, inner: string, node: string, acl: Acl, a: NetworkAction)
    requires outer != inner && a.srcNode == node && a.dstNode == "" && RestMatches(acl, a)
    requires node != "" && WildcardMatch(node, node) && !WildcardMatch(RefTo(inner), node)
    requires acl.srcNodes == [RefTo(outer)]
    ensures var groups: Groups := map[outer := Group([Subject(RefTo(inner), SUBJECT_NODE)]),
                                      inner := Group([Subject(node, SUBJECT_NODE)])];
            var calls := [Call(a, [outer], []), Call(a, [inner], [])];
            ValidRun(groups, acl, calls) && Answers(groups, acl, calls) == [false, true]
  {
    var groups: Groups := map[outer := Group([Subject(RefTo(inner), SUBJECT_NODE)]),
                              inner := Group([Subject(node, SUBJECT_NODE)])];
    OneMember(RefTo(inner));
    OneMember(node);
    OneGroup(groups, outer, node);
    OneGroup(groups, inner, node);
    var c, c' := Call(a, [outer], []), Call(a, [inner], []);
    var acl1 := acl.(srcNodes := [RefTo(inner)]);
    assert SetOf([node]) == {node} && SetOf([RefTo(inner)]) == {RefTo(inner)};
    assert MatchesStep(groups, acl, c) == (false, acl1);
    assert MatchesStep(groups, acl1, c').0;
    assert [c, c'][1..] == [c'] && [c'][1..] == [];
    assert Answers(groups, acl1, [c']) == [true];
    assert ValidRun(groups, acl1, [c']);
  }

  /** Flat lists only: every ACL answers as its original. */
  lemma FlatIsTransparent(groups: Groups)
    requires Unnested(groups) && NamesApart(groups)
    ensures Transparent(groups)
  {
    forall acl: Acl, calls: seq<Call>, i: nat | ValidRun(groups, acl, calls) && i < |calls|
      ensures Answers(groups, acl, calls)[i] == PureMatches(groups, acl, calls[i].action)
    {
      UnnestedIsFlat(groups, acl.srcNodes);
      UnnestedIsFlat(groups, acl.dstNodes);
      CacheTransparent(groups, acl, calls, i);
    }
  }

  lemma NotTransparent(groups: Groups, acl: Acl, calls: seq<Call>, i: nat)
    requires ValidRun(groups, acl, calls) && i < |calls|
    requires Answers(groups, acl, calls)[i] != PureMatches(groups, acl, calls[i].action)
    ensures !Transparent(groups)
  {
  }

  lemma OneCall(groups: Groups, acl: Acl, c: Call)
    requires ValidCall(groups, acl, c)
    ensures ValidRun(groups, acl, [c]) && Answers(groups, acl, [c]) == [MatchesStep(groups, acl, c).0]
  {
    assert [c][1..] == [];
  }

  lemma NamesNotTransparent(groups: Groups, name: string)
    requires Plain(groups) && LiveGroup(groups, name) && (Live(groups, name) || Broken(groups, name))
    ensures !Transparent(groups)
  {
    var acl, c := NamedLikeReferenceDrifts(groups, name);
    OneCall(groups, acl, c);
    NotTransparent(groups, acl, [c], 0);
  }

  lemma NestedNotTransparent(groups: Groups, name: string, m: string)
    requires Plain(groups) && NamesApart(groups) && LiveGroup(groups, name) && m in MembersOf(groups, name)
    requires Live(groups, m) || Broken(groups, m)
    ensures !Transparent(groups)
  {
    var acl, calls := NestedDrifts(groups, name, m);
    NotTransparent(groups, acl, calls, if PureMatches(groups, acl, calls[0].action) then 1 else 0);
  }

  /**
   On plain groups the cache is transparent, for all ACLs, runs and iteration orders, exactly when no
   group has a member or a name that is a reference to a stored group or to one that does not decode.
   */
  lemma TransparentExact(groups: Groups)
    requires Plain(groups)
    ensures Transparent(groups) <==> Unnested(groups) && NamesApart(groups)
  {
    if !NamesApart(groups) {
      var name :| LiveGroup(groups, name) && (Live(groups, name) || Broken(groups, name));
      NamesNotTransparent(groups, name);
    } else if !Unnested(groups) {
      var name, m :| LiveGroup(groups, name) && m in MembersOf(groups, name) && (Live(groups, m) || Broken(groups, m));
      NestedNotTransparent(groups, name, m);
    } else {
      FlatIsTransparent(groups);
    }
  }

  // ---------------------------------------------------------------------------------------------
  // The object
  // ---------------------------------------------------------------------------------------------

  /** The `groups` map of Matches. */
  method CollectGroups(groups: Groups, nodes: seq<string>) returns (r: Option<map<string, seq<string>>>)
    ensures r == Collect(groups, nodes, map[])
  {
    var acc := map[];
    for i := 0 to |nodes|
      invariant Collect(groups, nodes[i..], acc) == Collect(groups, nodes, map[])
    {
      assert nodes[i..][1..] == nodes[i + 1..];
      var node := nodes[i];
      if IsRef(node) && node !in acc {
        var name := RefName(node);
        if name !in groups {
          continue;
        }
        if groups[name].Corrupt? {
          return None;
        }
        var found := AppendMembers(groups[name].subjects, if name in acc then acc[name] else []);
        if NodeMembers(groups[name].subjects) != [] {
          acc := acc[name := found];
        }
      }
    }
    return Some(acc);
  }

  method AppendMembers(subjects: seq<Subject>, before: seq<string>) returns (out: seq<string>)
    ensures out == before + NodeMembers(subjects)
  {
    out := before;
    for i := 0 to |subjects|
      invariant out + NodeMembers(subjects[i..]) == before + NodeMembers(subjects)
    {
      assert subjects[i..][1..] == subjects[i + 1..];
      if subjects[i].kind == SUBJECT_ALL || subjects[i].kind == SUBJECT_NODE {
        out := out + [subjects[i].name];
      }
    }
  }

  /** replace. */
  method Replace(nodes: seq<string>, obj: string, with: seq<string>) returns (out: seq<string>)
    ensures out == Replaced(nodes, obj, with)
  {
    out := [];
    for i := 0 to |nodes|
      invariant out + Replaced(nodes[i..], obj, with) == Replaced(nodes, obj, with)
    {
      var add := if nodes[i] == obj then with else [nodes[i]];
      assert nodes[i..][1..] == nodes[i + 1..];
      assert out + (add + Replaced(nodes[i + 1..], obj, with)) == (out + add) + Replaced(nodes[i + 1..], obj, with);
      out := out + add;
    }
  }

  /** Expand the group references of a node list; `order` is the order the map was iterated in. */
  method ExpandReferences(groups: Groups, nodes: seq<string>) returns (r: Option<seq<string>>, ghost order: seq<string>)
    ensures ValidOrder(groups, nodes, order)
    ensures match Collect(groups, nodes, map[])
            case None => r == None
            case Some(members) => r == Some(ReplacedAll(nodes, order, members))
  {
    order := [];
    var collected := CollectGroups(groups, nodes);
    if collected == None {
      return None, order;
    }
    var members := collected.value;
    var out := nodes;
    var rest := members.Keys;
    while rest != {}
      invariant rest <= members.Keys
      invariant Distinct(order) && SetOf(order) == members.Keys - rest
      invariant out == ReplacedAll(nodes, order, members)
      decreases rest
    {
      var name :| name in rest;
      rest := rest - {name};
      assert name !in SetOf(order);
      assert (order + [name])[..|order|] == order;
      SetOfAppend(order, name);
      ReplacedSet(out, RefTo(name), members[name]);
      if RefTo(name) in out {
        out := Replace(out, RefTo(name), members[name]);
      }
      order := order + [name];
    }
    return Some(out), order;
  }

  // ---------------------------------------------------------------------------------------------
  // Lists of ACLs
  // ---------------------------------------------------------------------------------------------

  ghost predicate FlatAcls(groups: Groups, acls: seq<Acl>) {
    forall i :: 0 <= i < |acls| ==> FlatAcl(groups, acls[i])
  }

  ghost predicate SameAcls(groups: Groups, acls: seq<Acl>, acls': seq<Acl>) {
    && |acls'| == |acls|
    && (acls != [] ==> SameAcl(groups, acls[0], acls'[0]) && SameAcls(groups, acls[1..], acls'[1..]))
  }

  lemma {:induction false} SameAclsAt(groups: Groups, acls: seq<Acl>, acls': seq<Acl>, i: nat)
    requires SameAcls(groups, acls, acls') && i < |acls|
    ensures SameAcl(groups, acls[i], acls'[i])
  {
    if i > 0 {
      SameAclsAt(groups, acls[1..], acls'[1..], i - 1);
    }
  }

  /** The first matching ACL decides. */
  lemma {:induction false} AcceptAt(groups: Groups, acls: seq<Acl>, a: NetworkAction, i: nat)
    requires i <= |acls| && forall k :: 0 <= k < i ==> !PureMatches(groups, acls[k], a)
    ensures i == |acls| ==> !PureAccept(groups, acls, a)
    ensures i < |acls| && PureMatches(groups, acls[i], a) ==>
              (PureAccept(groups, acls, a) <==> acls[i].action == ACTION_ACCEPT)
  {
    if i > 0 {
      AcceptAt(groups, acls[1..], a, i - 1);
    }
  }

  lemma {:induction false} SameAclsReflexive(groups: Groups, acls: seq<Acl>)
    requires FlatAcls(groups, acls)
    ensures SameAcls(groups, acls, acls)
  {
    if acls != [] {
      SameAclsReflexive(groups, acls[1..]);
    }
  }

  lemma SameAclTransitive(groups: Groups, acl: Acl, acl': Acl, acl'': Acl)
    requires SameAcl(groups, acl, acl') && SameAcl(groups, acl', acl'')
    ensures SameAcl(groups, acl, acl'')
  {
  }

  /** One call on a member: it answers `m` and turns the member into `after`. */
  ghost predicate Tried(groups: Groups, acl: Acl, c: Call, a: NetworkAction, m: bool, after: Acl) {
    c.action == a && ValidCall(groups, acl, c) && (m, after) == MatchesStep(groups, acl, c)
  }

  /** The first `n` members were tried in order and answered no; the others stay as they were. */
  ghost predicate Passed(groups: Groups, acls: seq<Acl>, calls: seq<Call>, a: NetworkAction, n: nat, after: seq<Acl>) {
    && n <= |calls| <= |acls| == |after|
    && (forall k :: 0 <= k < n ==> Tried(groups, acls[k], calls[k], a, false, after[k]))
    && (forall k :: |calls| <= k < |acls| ==> after[k] == acls[k])
  }

  /**
   Accept on any list, nested groups included: members are tried in order, each rewriting itself, up to
   the first one that answers yes, which decides; when none does the answer is no.
   */
  ghost predicate Decided(groups: Groups, acls: seq<Acl>, calls: seq<Call>, a: NetworkAction, b: bool,
      after: seq<Acl>) {
    || (Passed(groups, acls, calls, a, |acls|, after) && !b)
    || (&& calls != []
        && var n := |calls| - 1;
           && Passed(groups, acls, calls, a, n, after)
           && Tried(groups, acls[n], calls[n], a, true, after[n])
           && b == (acls[n].action == ACTION_ACCEPT))
  }

  /** Trying one member of a form of `start` answers by `start`, and leaves a form of it. */
  lemma TriedMeaning(groups: Groups, start: Acl, acl: Acl, c: Call, a: NetworkAction, m: bool, after: Acl)
    requires SameAcl(groups, start, acl) && Tried(groups, acl, c, a, m, after)
    ensures m == PureMatches(groups, start, a) && SameAcl(groups, start, after)
  {
    SameAclIsFlat(groups, start, acl);
    MatchesStepMeaning(groups, acl, c);
    SameAclMatches(groups, start, acl, a);
    SameAclTransitive(groups, start, acl, after);
  }

  /** The member was either tried or left alone. */
  ghost predicate Touched(groups: Groups, acl: Acl, after: Acl, a: NetworkAction) {
    after == acl || exists c, m :: Tried(groups, acl, c, a, m, after)
  }

  lemma TouchedMeaning(groups: Groups, start: Acl, acl: Acl, after: Acl, a: NetworkAction)
    requires SameAcl(groups, start, acl) && Touched(groups, acl, after, a)
    ensures SameAcl(groups, start, after)
  {
    if after != acl {
      var c, m :| Tried(groups, acl, c, a, m, after);
      TriedMeaning(groups, start, acl, c, a, m, after);
    }
  }

  lemma {:induction false} TouchedList(groups: Groups, start: seq<Acl>, acls: seq<Acl>, after: seq<Acl>,
      a: NetworkAction)
    requires SameAcls(groups, start, acls) && |after| == |acls|
    requires forall k :: 0 <= k < |acls| ==> Touched(groups, acls[k], after[k], a)
    ensures SameAcls(groups, start, after)
  {
    if acls != [] {
      TouchedMeaning(groups, start[0], acls[0], after[0], a);
      TouchedList(groups, start[1..], acls[1..], after[1..], a);
    }
  }

  lemma PassedRefuses(
    groups: Groups, start: seq<Acl>, acls: seq<Acl>, calls: seq<Call>, a: NetworkAction, n: nat, after: seq<Acl>,
    k: nat)
    requires SameAcls(groups, start, acls) && Passed(groups, acls, calls, a, n, after) && k < n
    ensures !PureMatches(groups, start[k], a)
  {
    SameAclsAt(groups, start, acls, k);
    TriedMeaning(groups, start[k], acls[k], calls[k], a, false, after[k]);
  }

  lemma DecidedTouches(groups: Groups, acls: seq<Acl>, calls: seq<Call>, a: NetworkAction, b: bool, after: seq<Acl>)
    requires Decided(groups, acls, calls, a, b, after)
    ensures |after| == |acls| && forall k :: 0 <= k < |acls| ==> Touched(groups, acls[k], after[k], a)
  {
  }

  /** On a form of `start` the decision is that of `start`. */
  lemma DecidedByStart(
    groups: Groups, start: seq<Acl>, acls: seq<Acl>, calls: seq<Call>, a: NetworkAction, b: bool, after: seq<Acl>)
    requires SameAcls(groups, start, acls) && Decided(groups, acls, calls, a, b, after)
    ensures b == PureAccept(groups, start, a)
  {
    var n := if Passed(groups, acls, calls, a, |acls|, after) && !b then |acls| else |calls| - 1;
    forall k | 0 <= k < n ensures !PureMatches(groups, start[k], a) {
      PassedRefuses(groups, start, acls, calls, a, n, after, k);
    }
    AcceptAt(groups, start, a, n);
    if n < |acls| {
      SameAclsAt(groups, start, acls, n);
      TriedMeaning(groups, start[n], acls[n], calls[n], a, true, after[n]);
    }
  }

  /** On a form of `start` the decision is that of `start`, and the list stays a form of it. */
  lemma DecidedMeaning(
    groups: Groups, start: seq<Acl>, acls: seq<Acl>, calls: seq<Call>, a: NetworkAction, b: bool, after: seq<Acl>)
    requires SameAcls(groups, start, acls) && Decided(groups, acls, calls, a, b, after)
    ensures b == PureAccept(groups, start, a) && SameAcls(groups, start, after)
  {
    DecidedByStart(groups, start, acls, calls, a, b, after);
    DecidedTouches(groups, acls, calls, a, b, after);
    TouchedList(groups, start, acls, after, a);
  }

  /** One evaluation of the list: what was asked, the answer, and the list before and after. */
  datatype Scan = Scan(before: seq<Acl>, calls: seq<Call>, action: NetworkAction, answer: bool, after: seq<Acl>)

  /** The list that a sequence of evaluations leaves behind. */
  function Current(start: seq<Acl>, log: seq<Scan>): seq<Acl> {
    if log == [] then start else log[|log| - 1].after
  }

  /** The i-th evaluation took the list the one before left behind, and decided as the code does. */
  ghost predicate Link(groups: Groups, start: seq<Acl>, log: seq<Scan>, i: nat)
    requires i < |log|
  {
    && log[i].before == (if i == 0 then start else log[i - 1].after)
    && Decided(groups, log[i].before, log[i].calls, log[i].action, log[i].answer, log[i].after)
  }

  /** Every evaluation in the log did so. */
  ghost predicate Honest(groups: Groups, start: seq<Acl>, log: seq<Scan>) {
    forall i :: 0 <= i < |log| ==> Link(groups, start, log, i)
  }

  lemma HonestAppend(groups: Groups, start: seq<Acl>, log: seq<Scan>, s: Scan)
    requires Honest(groups, start, log) && s.before == Current(start, log)
    requires Decided(groups, s.before, s.calls, s.action, s.answer, s.after)
    ensures Honest(groups, start, log + [s])
  {
    forall i | 0 <= i < |log| + 1 ensures Link(groups, start, log + [s], i) {
      assert i < |log| ==> Link(groups, start, log, i);
    }
  }

  lemma {:induction false} HonestAnswer(groups: Groups, start: seq<Acl>, log: seq<Scan>, i: nat)
    requires FlatAcls(groups, start) && Honest(groups, start, log) && i < |log|
    ensures SameAcls(groups, start, log[i].after) && log[i].answer == PureAccept(groups, start, log[i].action)
  {
    assert Link(groups, start, log, i);
    if i == 0 {
      SameAclsReflexive(groups, start);
    } else {
      HonestAnswer(groups, start, log, i - 1);
    }
    DecidedMeaning(groups, start, log[i].before, log[i].calls, log[i].action, log[i].answer, log[i].after);
  }

  /** On a flat list every answer in a sequence of evaluations is that of the original list. */
  lemma HonestAnswers(groups: Groups, start: seq<Acl>, log: seq<Scan>)
    requires FlatAcls(groups, start) && Honest(groups, start, log)
    ensures forall s :: s in log ==> s.answer == PureAccept(groups, start, s.action)
  {
    forall s | s in log ensures s.answer == PureAccept(groups, start, s.action) {
      var i :| 0 <= i < |log| && log[i] == s;
      HonestAnswer(groups, start, log, i);
    }
  }

  /** The list that ListNetworkACLs returns, whose members rewrite themselves in place. */
  class ACLs {
    var items: seq<Acl>
    ghost var log: seq<Scan>

    constructor (acls: seq<Acl>)
      ensures items == acls && log == []
    {
      items, log := acls, [];
    }

    /** The list started out as `start`, and has been evaluated as the log says. */
    ghost predicate Tracks(groups: Groups, start: seq<Acl>)
      reads this
    {
      Honest(groups, start, log) && items == Current(start, log)
    }

    /**
     ACL.Matches on the i-th member: it answers and rewrites itself exactly as MatchesStep says, for
     some iteration orders.
     */
    method Matches(groups: Groups, i: nat, a: NetworkAction) returns (m: bool, ghost c: Call)
      requires i < |items|
      modifies this`items
      ensures |items| == |old(items)| && items == old(items)[i := items[i]]
      ensures Tried(groups, old(items[i]), c, a, m, items[i])
    {
      c := Call(a, [], []);
      if a.srcNode != "" {
        var expanded, order := ExpandReferences(groups, items[i].srcNodes);
        c := Call(a, order, []);
        if expanded == None {
          return false, c;
        }
        items := items[i := items[i].(srcNodes := expanded.value)];
        if !ContainsMatch(SetOf(items[i].srcNodes), a.srcNode) {
          return false, c;
        }
      }
      if a.dstNode != "" {
        var expanded, order := ExpandReferences(groups, items[i].dstNodes);
        c := Call(a, c.srcOrder, order);
        if expanded == None {
          return false, c;
        }
        items := items[i := items[i].(dstNodes := expanded.value)];
        if !ContainsMatch(SetOf(items[i].dstNodes), a.dstNode) {
          return false, c;
        }
      }
      return RestMatches(items[i], a), c;
    }

    /** The loop of ACLs.Accept: the list is used in the order given; a nil list is an empty one. */
    method Decide(groups: Groups, a: NetworkAction) returns (b: bool, ghost calls: seq<Call>)
      modifies this`items
      ensures Decided(groups, old(items), calls, a, b, items)
    {
      var n := |items|;
      ghost var acls := items;
      calls := [];
      for i := 0 to n
        invariant |items| == n && |calls| == i
        invariant Passed(groups, acls, calls, a, i, items)
      {
        var m, c := Matches(groups, i, a);
        calls := calls + [c];
        if m {
          b := items[i].action == ACTION_ACCEPT;
          return;
        }
      }
      b := false;
    }

    /** ACLs.Accept; the evaluation is added to the log. */
    method Accept(groups: Groups, a: NetworkAction, ghost start: seq<Acl>) returns (b: bool)
      requires Tracks(groups, start)
      modifies this
      ensures Tracks(groups, start)
      ensures |log| > 0 && log == old(log) + [log[|log| - 1]]
      ensures var last := log[|log| - 1]; last.action == a && last.answer == b
    {
      ghost var acls, calls := items, [];
      b, calls := Decide(groups, a);
      HonestAppend(groups, start, log, Scan(acls, calls, a, b, items));
      log := log + [Scan(acls, calls, a, b, items)];
    }
  }
}
