/**
 Groups and network ACLs as bootstrapping and the admin service store them (pkg/mesh/mesh_bootstrap.go,
 pkg/services/admin/admin_put_group.go, pkg/services/admin/admin_put_network_acl.go), and what that means
 for evaluating them.
 */
module AdminPolicy {
  import opened Wrappers
  import opened MeshData
  import opened NetworkAcls
  import opened GraphFilter
  import opened Wildcards
  import MeshRouting
  import Rbac

  const BOOTSTRAP_NODES := "bootstrap-nodes"
  const DEFAULT_ACCEPT := "default-accept"

  /** A node entry or member that passed the admin service, or stands for everyone. */
  predicate Vetted(entry: string) {
    IsValidID(entry) || entry == "*"
  }

  ghost predicate VettedGroups(groups: Groups) {
    forall name, m :: LiveGroup(groups, name) && m in MembersOf(groups, name) ==> Vetted(m)
  }

  // ---------------------------------------------------------------------------------------------
  // What the admin service lets through
  // ---------------------------------------------------------------------------------------------

  /** A valid ID has no colon, so it is no reference. */
  lemma ReferenceIsNotVetted(m: string)
    requires IsRef(m)
    ensures !Vetted(m)
  {
    assert m[5] == GROUP_PREFIX[5] == ':';
    assert ':' in m && ':' in INVALID_ID_CHARS;
  }

  /** Subjects that get through the loop are valid, unless there is one that stands for everyone. */
  lemma {:induction false} SquashVets(subjects: seq<Subject>, rest: seq<Subject>)
    requires Rbac.SquashSubjects(subjects, rest).Some?
    ensures var stored := Rbac.SquashSubjects(subjects, rest).value;
            || (exists s :: stored == [s] && s.name == "*")
            || (stored == subjects && forall s :: s in rest ==> IsValidID(s.name))
  {
    if rest != [] {
      if !Rbac.IsEveryone(rest[0]) {
        SquashVets(subjects, rest[1..]);
        assert forall s :: s in rest ==> s == rest[0] || s in rest[1..];
      }
    }
  }

  lemma StoredIsVetted(subjects: seq<Subject>, m: string)
    requires Rbac.SquashSubjects(subjects, subjects).Some?
    requires m in NodeMembers(Rbac.SquashSubjects(subjects, subjects).value)
    ensures Vetted(m)
  {
    SquashVets(subjects, subjects);
    NodeMembersExact(Rbac.SquashSubjects(subjects, subjects).value, m);
  }

  // ---------------------------------------------------------------------------------------------
  // Groups from the admin service
  // ---------------------------------------------------------------------------------------------

  lemma VettedIsUnnested(groups: Groups)
    requires VettedGroups(groups)
    ensures Unnested(groups)
  {
    forall name, m | LiveGroup(groups, name) && m in MembersOf(groups, name) ensures !IsRef(m) {
      if IsRef(m) {
        ReferenceIsNotVetted(m);
      }
    }
  }

  /** With vetted members, every ACL cache is transparent if no group is named like a reference to another. */
  lemma VettedIsTransparent(groups: Groups)
    requires VettedGroups(groups) && NamesApart(groups)
    ensures Transparent(groups) && forall nodes :: Flat(groups, nodes)
  {
    VettedIsUnnested(groups);
    FlatIsTransparent(groups);
    forall nodes ensures Flat(groups, nodes) {
      UnnestedIsFlat(groups, nodes);
    }
  }

  /** And only then, when nothing has a star. */
  lemma VettedExact(groups: Groups)
    requires VettedGroups(groups) && Plain(groups)
    ensures Transparent(groups) <==> NamesApart(groups)
  {
    VettedIsUnnested(groups);
    TransparentExact(groups);
  }

  lemma MemberMeans(groups: Groups, nodes: seq<string>, e: string, m: string)
    requires e in nodes && Live(groups, e) && m in MembersOf(groups, RefName(e)) && '*' !in m
    ensures ContainsMatch(Expansion(groups, nodes), m)
  {
    assert m in Expansion(groups, nodes) && WildcardMatch(m, m);
  }

  /** An entry hidden by a group named like it: a member of its own group is refused by the first call. */
  lemma HiddenMember(groups: Groups, name: string, m: string, acl: Acl, a: NetworkAction)
    requires LiveGroup(groups, name) && LiveGroup(groups, RefTo(name))
    requires m in MembersOf(groups, name) && '*' !in m && m != ""
    requires !ContainsMatch(SetOf(MembersOf(groups, RefTo(name)) + [RefTo(name)]), m)
    requires acl.srcNodes == [RefTo(RefTo(name)), RefTo(name)]
    requires a.srcNode == m && a.dstNode == "" && RestMatches(acl, a)
    ensures var c := Call(a, [RefTo(name)], []);
            ValidCall(groups, acl, c) && !MatchesStep(groups, acl, c).0 && PureMatches(groups, acl, a)
  {
    var ref := RefTo(name);
    HiddenEntry(groups, ref, m);
    assert acl.srcNodes[1] == ref && RefName(ref) == name && RefName(RefTo(ref)) == ref;
    MemberMeans(groups, acl.srcNodes, ref, m);
  }

  lemma OtherIDs(name: string, m: string, n: string)
    requires '*' !in name && IsValidID(m) && IsValidID(n) && m != n
    ensures '*' !in m && !ContainsMatch(SetOf([n] + [RefTo(name)]), m)
  {
    var ref := RefTo(name);
    assert '*' in INVALID_ID_CHARS && '*' !in n && '*' !in ref;
    ReferenceIsNotVetted(ref);
    assert SetOf([n] + [ref]) == {n, ref};
  }

  /**
   Names are not vetted. Store a group under a name and another one under the reference to that name, and
   list both references: the second one is skipped, and its member is refused though the ACL means yes.
   */
  lemma NamedLikeReference(name: string, m: string, n: string, acl: Acl, a: NetworkAction)
    requires '*' !in name && IsValidID(m) && IsValidID(n) && m != n
    requires acl.srcNodes == [RefTo(RefTo(name)), RefTo(name)]
    requires a.srcNode == m && a.dstNode == "" && RestMatches(acl, a)
    ensures var groups: Groups := map[name := Group([Subject(m, SUBJECT_NODE)]),
                                      RefTo(name) := Group([Subject(n, SUBJECT_NODE)])];
            var c := Call(a, [RefTo(name)], []);
            && VettedGroups(groups) && ValidCall(groups, acl, c)
            && !MatchesStep(groups, acl, c).0 && PureMatches(groups, acl, a)
  {
    var ref := RefTo(name);
    assert ref != name by { assert |ref| == |GROUP_PREFIX| + |name|; }
    var groups: Groups := map[name := Group([Subject(m, SUBJECT_NODE)]), ref := Group([Subject(n, SUBJECT_NODE)])];
    OneMember(m);
    OneMember(n);
    assert MembersOf(groups, name) == [m] && MembersOf(groups, ref) == [n];
    OtherIDs(name, m, n);
    HiddenMember(groups, name, m, acl, a);
  }

  // ---------------------------------------------------------------------------------------------
  // The store
  // ---------------------------------------------------------------------------------------------

  function NodeSubjects(names: seq<string>): seq<Subject> {
    seq(|names|, i requires 0 <= i < |names| => Subject(names[i], SUBJECT_NODE))
  }

  const VOTERS_ONLY := [RefTo(Rbac.VOTERS)]

  const BOOTSTRAP_ACL := Acl(BOOTSTRAP_NODES, 0x7FFF_FFFF, ACTION_ACCEPT, VOTERS_ONLY, VOTERS_ONLY, [], [], [], [])

  const DEFAULT_ACL := Acl(DEFAULT_ACCEPT, -0x8000_0000, ACTION_ACCEPT, ["*"], ["*"], ["*"], ["*"], [], [])

  /** The node entries of an ACL: vetted, or the reference of the bootstrap ACL. */
  ghost predicate EntriesVetted(nodes: seq<string>) {
    forall e :: e in nodes ==> Vetted(e) || e == RefTo(Rbac.VOTERS)
  }

  ghost predicate AclVetted(acl: Acl) {
    EntriesVetted(acl.srcNodes) && EntriesVetted(acl.dstNodes)
  }

  /** All records decode, and members are vetted except for those of the bootstrapped voters group. */
  ghost predicate GroupsVetted(groups: Groups, voters: seq<string>) {
    && (forall name :: name in groups ==> groups[name].Group?)
    && forall name, m :: LiveGroup(groups, name) && m in MembersOf(groups, name) ==>
         Vetted(m) || (name == Rbac.VOTERS && m in voters)
  }

  class PolicyStore {
    const voters: seq<string>
    var groups: Groups
    var acls: map<string, Acl>

    /** What bootstrapping stores; `voters` are the admin, the servers and the configured voters. */
    constructor (voters: seq<string>, defaultAccept: bool)
      ensures Valid() && this.voters == voters
      ensures groups == map[Rbac.VOTERS := Group(NodeSubjects(voters))]
      ensures acls == if defaultAccept then map[BOOTSTRAP_NODES := BOOTSTRAP_ACL, DEFAULT_ACCEPT := DEFAULT_ACL]
                      else map[BOOTSTRAP_NODES := BOOTSTRAP_ACL]
    {
      this.voters := voters;
      groups := map[Rbac.VOTERS := Group(NodeSubjects(voters))];
      acls := map[BOOTSTRAP_NODES := BOOTSTRAP_ACL];
      if defaultAccept {
        acls := map[BOOTSTRAP_NODES := BOOTSTRAP_ACL, DEFAULT_ACCEPT := DEFAULT_ACL];
      }
      new;
      forall name, m | LiveGroup(groups, name) && m in MembersOf(groups, name)
        ensures name == Rbac.VOTERS && m in voters
      {
        NodeMembersExact(NodeSubjects(voters), m);
      }
    }

    ghost predicate Valid()
      reads this
    {
      GroupsVetted(groups, voters) && forall name :: name in acls ==> AclVetted(acls[name])
    }

    /** The admin PutGroup; its loop over the subjects is that of PutRoleBinding. The name is not vetted. */
    method PutGroup(isLeader: bool, permitted: bool, name: string, subjects: seq<Subject>)
      returns (err: Option<Rbac.AdminError>)
      requires Valid()
      modifies this`groups
      ensures Valid()
      ensures err.None? <==> isLeader && name != "" && permitted && subjects != []
                             && Rbac.SquashSubjects(subjects, subjects).Some?
      ensures groups == if err.Some? then old(groups)
                        else old(groups)[name := Group(Rbac.SquashSubjects(subjects, subjects).value)]
      ensures err.None? ==> forall m :: m in MembersOf(groups, name) ==> Vetted(m)
    {
      if !isLeader {
        return Some(Rbac.NotLeader);
      }
      if name == "" {
        return Some(Rbac.MissingName);
      }
      if !permitted {
        return Some(Rbac.PermissionDenied);
      }
      if |subjects| == 0 {
        return Some(Rbac.NoSubjects);
      }
      var stored := Rbac.SquashSubjectsLoop(subjects);
      if stored == None {
        return Some(Rbac.BadSubject);
      }
      groups := groups[name := Group(stored.value)];
      forall m | m in MembersOf(groups, name) ensures Vetted(m) {
        StoredIsVetted(subjects, m);
      }
      forall other, m | other != name && LiveGroup(groups, other) && m in MembersOf(groups, other)
        ensures Vetted(m) || (other == Rbac.VOTERS && m in voters)
      {
        assert LiveGroup(old(groups), other) && m in MembersOf(old(groups), other);
      }
      return None;
    }

    method DeleteGroup(name: string) returns (err: Option<Rbac.AdminError>)
      requires Valid()
      modifies this`groups
      ensures Valid()
      ensures err == if name == Rbac.VOTERS then Some(Rbac.SystemObject) else None
      ensures groups == if err.Some? then old(groups) else old(groups) - {name}
    {
      if name == Rbac.VOTERS {
        return Some(Rbac.SystemObject);
      }
      groups := groups - {name};
      forall other, m | LiveGroup(groups, other) && m in MembersOf(groups, other)
        ensures Vetted(m) || (other == Rbac.VOTERS && m in voters)
      {
        assert LiveGroup(old(groups), other) && m in MembersOf(old(groups), other);
      }
      return None;
    }

    /** The admin PutNetworkACL; `prefixes` are the strings that netip.ParsePrefix accepts. */
    method PutNetworkACL(isLeader: bool, permitted: bool, prefixes: set<string>, acl: Acl)
      returns (err: Option<Rbac.AdminError>)
      requires Valid()
      modifies this`acls
      ensures Valid()
      ensures err.None? <==>
              && isLeader && acl.name != "" && permitted && acl.name != BOOTSTRAP_NODES && !acl.action.OtherAction?
              && acl.dstCidrs + acl.srcCidrs + acl.srcNodes + acl.dstNodes != []
              && (forall c :: c in acl.srcCidrs + acl.dstCidrs ==> c in prefixes)
              && (forall e :: e in acl.srcNodes + acl.dstNodes ==> IsValidID(e))
      ensures acls == if err.Some? then old(acls) else old(acls)[acl.name := acl]
    {
      if !isLeader {
        return Some(Rbac.NotLeader);
      }
      if acl.name == "" {
        return Some(Rbac.MissingName);
      }
      if !permitted {
        return Some(Rbac.PermissionDenied);
      }
      if acl.name == BOOTSTRAP_NODES {
        return Some(Rbac.SystemObject);
      }
      if acl.action.OtherAction? {
        return Some(Rbac.BadRule);
      }
      if acl.dstCidrs == [] && acl.srcCidrs == [] && acl.srcNodes == [] && acl.dstNodes == [] {
        return Some(Rbac.NoRules);
      }
      var cidrs := acl.srcCidrs + acl.dstCidrs;
      for i := 0 to |cidrs|
        invariant forall j :: 0 <= j < i ==> cidrs[j] in prefixes
      {
        if cidrs[i] !in prefixes {
          assert cidrs[i] in cidrs;
          return Some(Rbac.BadRule);
        }
      }
      var nodes := acl.srcNodes + acl.dstNodes;
      for i := 0 to |nodes|
        invariant forall j :: 0 <= j < i ==> IsValidID(nodes[j])
      {
        if !IsValidID(nodes[i]) {
          assert nodes[i] in nodes;
          return Some(Rbac.BadSubject);
        }
      }
      assert forall e :: e in nodes <==> e in acl.srcNodes || e in acl.dstNodes;
      acls := acls[acl.name := acl];
      return None;
    }

    method DeleteNetworkACL(name: string) returns (err: Option<Rbac.AdminError>)
      requires Valid()
      modifies this`acls
      ensures Valid()
      ensures err == if name == BOOTSTRAP_NODES then Some(Rbac.SystemObject) else None
      ensures acls == if err.Some? then old(acls) else old(acls) - {name}
    {
      if name == BOOTSTRAP_NODES {
        return Some(Rbac.SystemObject);
      }
      acls := acls - {name};
      return None;
    }

    method ListNetworkACLs() returns (out: seq<Acl>)
      ensures |out| == |acls| && SetOf(out) == acls.Values
    {
      out := [];
      var rest := acls.Keys;
      while rest != {}
        invariant rest <= acls.Keys && |out| + |rest| == |acls|
        invariant SetOf(out) == set name | name in acls.Keys - rest :: acls[name]
        decreases rest
      {
        var name :| name in rest;
        SetOfAppend(out, acls[name]);
        out := out + [acls[name]];
        rest := rest - {name};
      }
    }

    /**
     FilterGraph on what is stored. Unless a bootstrapped voter is named like a reference, the cut is
     exactly the one the policy wants, on every store that bootstrapping and the admin service reach.
     */
    method FilterStored(mesh: MeshRouting.Mesh, full: map<string, AdjacencyRow>, me: string)
      returns (filtered: map<string, AdjacencyRow?>, ghost listed: seq<Acl>)
      requires Valid()
      modifies if me in full then {full[me]} else {}
      ensures |listed| == |acls| && SetOf(listed) == acls.Values
      ensures (forall v :: v in voters ==> !IsRef(v)) ==>
                Contents(filtered) == Filtered(groups, listed, mesh, old(Contents(full)), me)
    {
      var list := ListNetworkACLs();
      listed := list;
      if forall v :: v in voters ==> !IsRef(v) {
        StoredIsFlat(groups, voters, acls, listed);
      }
      var cut, log := FilterGraph(groups, list, mesh, full, me);
      filtered := cut;
    }
  }

  lemma EntriesFlat(groups: Groups, voters: seq<string>, nodes: seq<string>)
    requires GroupsVetted(groups, voters) && EntriesVetted(nodes) && forall v :: v in voters ==> !IsRef(v)
    ensures Flat(groups, nodes)
  {
    assert Rbac.VOTERS[0] == 'v' && !IsRef(Rbac.VOTERS);
    forall e | e in nodes && Live(groups, e) ensures e == RefTo(Rbac.VOTERS) && RefName(e) == Rbac.VOTERS {
      if Vetted(e) {
        ReferenceIsNotVetted(e);
      }
    }
    forall m | LiveGroup(groups, Rbac.VOTERS) && m in MembersOf(groups, Rbac.VOTERS) ensures !IsRef(m) {
      if IsRef(m) {
        ReferenceIsNotVetted(m);
      }
    }
  }

  /** Every list of stored ACLs is flat, unless a bootstrapped voter is named like a reference. */
  lemma StoredIsFlat(groups: Groups, voters: seq<string>, acls: map<string, Acl>, listed: seq<Acl>)
    requires GroupsVetted(groups, voters) && (forall name :: name in acls ==> AclVetted(acls[name]))
    requires SetOf(listed) == acls.Values && forall v :: v in voters ==> !IsRef(v)
    ensures FlatAcls(groups, listed)
  {
    forall i | 0 <= i < |listed| ensures FlatAcl(groups, listed[i]) {
      assert listed[i] in SetOf(listed);
      EntriesFlat(groups, voters, listed[i].srcNodes);
      EntriesFlat(groups, voters, listed[i].dstNodes);
    }
  }

  // ---------------------------------------------------------------------------------------------
  // What the bootstrapped policy admits
  // ---------------------------------------------------------------------------------------------

  lemma {:induction false} AllAcceptAccepts(groups: Groups, acls: seq<Acl>, a: NetworkAction)
    requires forall acl :: acl in acls ==> acl.action == ACTION_ACCEPT
    ensures PureAccept(groups, acls, a) <==> exists acl :: acl in acls && PureMatches(groups, acl, a)
  {
    if acls != [] {
      AllAcceptAccepts(groups, acls[1..], a);
      assert acls == [acls[0]] + acls[1..];
    }
  }

  lemma EveryoneListed(groups: Groups, s: string)
    ensures PureNodes(groups, ["*"], s) && PureField(["*"], s)
  {
    assert "*" in Expansion(groups, ["*"]) && "*" in SetOf(["*"]) && WildcardMatch("*", s);
  }

  /** Bootstrapped with the accepting default, the policy admits every node with all its routes. */
  lemma DefaultAdmitsAll(groups: Groups, listed: seq<Acl>, mesh: MeshRouting.Mesh, me: string, node: string)
    requires SetOf(listed) == {BOOTSTRAP_ACL, DEFAULT_ACL}
    ensures Admitted(groups, listed, mesh, me, node)
  {
    assert forall acl :: acl in listed <==> acl in SetOf(listed);
    forall s ensures PureNodes(groups, ["*"], s) && PureField(["*"], s) {
      EveryoneListed(groups, s);
    }
    AllAcceptAccepts(groups, listed, Direct(me, node));
    assert DEFAULT_ACL in listed && PureMatches(groups, DEFAULT_ACL, Direct(me, node));
    forall cidr | cidr in mesh.Exposed(node) ensures PureAccept(groups, listed, ViaRoute(me, node, cidr)) {
      AllAcceptAccepts(groups, listed, ViaRoute(me, node, cidr));
      assert PureMatches(groups, DEFAULT_ACL, ViaRoute(me, node, cidr));
    }
  }

  lemma NodeSubjectsMembers(names: seq<string>, m: string)
    ensures m in NodeMembers(NodeSubjects(names)) <==> m in names
  {
    var subjects := NodeSubjects(names);
    NodeMembersExact(subjects, m);
    if m in names {
      var i :| 0 <= i < |names| && names[i] == m;
      assert subjects[i] in subjects;
    }
  }

  lemma VotersListed(groups: Groups, voters: seq<string>, s: string)
    requires groups == map[Rbac.VOTERS := Group(NodeSubjects(voters))]
    requires s != "" && voters != [] && forall v :: v in voters ==> '*' !in v
    ensures PureNodes(groups, VOTERS_ONLY, s) <==> s in voters
  {
    var ref, members := RefTo(Rbac.VOTERS), NodeMembers(NodeSubjects(voters));
    assert RefName(ref) == Rbac.VOTERS && MembersOf(groups, Rbac.VOTERS) == members;
    forall m ensures m in members <==> m in voters {
      NodeSubjectsMembers(voters, m);
    }
    assert voters[0] in members && Live(groups, ref);
    OneExpansion(groups, ref);
    assert forall m :: m in SetOf(members) <==> m in voters;
    assert !AnyBroken(groups, VOTERS_ONLY);
    if s in voters {
      assert WildcardMatch(s, s);
    }
  }

  /**
   Bootstrapped without it, the policy admits exactly the voters among each other, as long as they expose
   no routes: the bootstrap ACL names no CIDRs, so it matches no action on a route.
   */
  lemma BootstrapAdmitsVoters(groups: Groups, voters: seq<string>, mesh: MeshRouting.Mesh, me: string, node: string)
    requires groups == map[Rbac.VOTERS := Group(NodeSubjects(voters))]
    requires voters != [] && (forall v :: v in voters ==> '*' !in v) && me != "" && node != ""
    ensures Admitted(groups, [BOOTSTRAP_ACL], mesh, me, node) <==>
            me in voters && node in voters && mesh.Exposed(node) <= {""}
  {
    VotersListed(groups, voters, me);
    VotersListed(groups, voters, node);
    forall a ensures PureAccept(groups, [BOOTSTRAP_ACL], a) <==> PureMatches(groups, BOOTSTRAP_ACL, a) {
      AllAcceptAccepts(groups, [BOOTSTRAP_ACL], a);
    }
    forall cidr ensures PureMatches(groups, BOOTSTRAP_ACL, ViaRoute(me, node, cidr)) <==>
                          me in voters && node in voters && cidr == "" {
      assert SetOf<string>([]) == {};
    }
  }
}
