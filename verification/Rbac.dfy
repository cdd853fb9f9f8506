/**
 Role-based access control: evaluating rules (pkg/meshdb/rbac/eval.go), collecting a caller's roles
 (pkg/meshdb/rbac/rbac.go), answering for a caller (pkg/services/rbac/rbac.go), and what the admin service
 does to roles and bindings before it stores them (pkg/services/admin/admin_put_role.go,
 pkg/services/admin/admin_put_role_binding.go).
 */
module Rbac {
  import opened Wrappers
  import opened MeshData

  /** A verb; numbers outside the enumeration arrive as Unrecognized. */
  datatype Verb = VERB_ALL | Verb(code: int) | UnrecognizedVerb(code: int)

  datatype Resource = RESOURCE_ALL | Resource(code: int) | UnrecognizedResource(code: int)

  datatype Rule = Rule(verbs: seq<Verb>, resources: seq<Resource>, resourceNames: seq<string>)

  datatype Role = Role(name: string, rules: seq<Rule>)

  datatype Action = Action(verb: Verb, resource: Resource, resourceName: string)

  // ---------------------------------------------------------------------------------------------
  // Evaluation
  // ---------------------------------------------------------------------------------------------

  predicate VerbMatch(rule: Rule, a: Action) {
    exists v :: v in rule.verbs && (v == a.verb || v == VERB_ALL)
  }

  predicate ResourceMatch(r: Resource, a: Action) {
    r == a.resource || r == RESOURCE_ALL
  }

  /** The resource at which the second loop of EvalRule stops. */
  function FirstMatch(resources: seq<Resource>, a: Action): Option<Resource> {
    if resources == [] then None
    else if ResourceMatch(resources[0], a) then Some(resources[0])
    else FirstMatch(resources[1..], a)
  }

  /** What EvalRule computes: names are waived only if the first matching resource is the wildcard. */
  predicate Eval(rule: Rule, a: Action) {
    && VerbMatch(rule, a)
    && var m := FirstMatch(rule.resources, a);
       m.Some? && (a.resourceName == "" || m.value == RESOURCE_ALL || a.resourceName in rule.resourceNames)
  }

  method EvalRule(rule: Rule, a: Action) returns (allowed: bool)
    ensures allowed == Eval(rule, a)
    ensures allowed ==> a.verb in rule.verbs || VERB_ALL in rule.verbs
    ensures allowed ==> a.resource in rule.resources || RESOURCE_ALL in rule.resources
  {
    var verbMatch := false;
    for i := 0 to |rule.verbs|
      invariant !verbMatch
      invariant forall j :: 0 <= j < i ==> rule.verbs[j] != a.verb && rule.verbs[j] != VERB_ALL
    {
      if rule.verbs[i] == a.verb || rule.verbs[i] == VERB_ALL {
        assert rule.verbs[i] in rule.verbs;
        verbMatch := true;
        break;
      }
    }
    if !verbMatch {
      return false;
    }
    var resourceMatch, allResources := false, false;
    for i := 0 to |rule.resources|
      invariant !resourceMatch && !allResources
      invariant FirstMatch(rule.resources, a) == FirstMatch(rule.resources[i..], a)
    {
      assert rule.resources[i..][1..] == rule.resources[i + 1..];
      if rule.resources[i] == a.resource || rule.resources[i] == RESOURCE_ALL {
        resourceMatch := true;
        if rule.resources[i] == RESOURCE_ALL {
          allResources := true;
        }
        break;
      }
    }
    if !resourceMatch {
      return false;
    }
    if a.resourceName == "" || allResources {
      return true;
    }
    for i := 0 to |rule.resourceNames|
      invariant forall j :: 0 <= j < i ==> rule.resourceNames[j] != a.resourceName
    {
      if rule.resourceNames[i] == a.resourceName {
        return true;
      }
    }
    return false;
  }

  predicate EvalRole(role: Role, a: Action) {
    exists rule :: rule in role.rules && Eval(rule, a)
  }

  predicate EvalRoles(roles: seq<Role>, a: Action) {
    exists role :: role in roles && EvalRole(role, a)
  }

  /** What a rule means, whatever the order of its lists. */
  predicate Allows(rule: Rule, a: Action) {
    && (a.verb in rule.verbs || VERB_ALL in rule.verbs)
    && (RESOURCE_ALL in rule.resources
        || (a.resource in rule.resources && (a.resourceName == "" || a.resourceName in rule.resourceNames)))
  }

  lemma {:induction false} FirstMatchIn(resources: seq<Resource>, a: Action)
    ensures FirstMatch(resources, a).Some? <==> a.resource in resources || RESOURCE_ALL in resources
    ensures FirstMatch(resources, a).Some? ==>
              FirstMatch(resources, a).value in resources && ResourceMatch(FirstMatch(resources, a).value, a)
  {
    if resources != [] {
      FirstMatchIn(resources[1..], a);
    }
  }

  /** Evaluation never allows more than the meaning. */
  lemma EvalSound(rule: Rule, a: Action)
    ensures Eval(rule, a) ==> Allows(rule, a)
  {
    FirstMatchIn(rule.resources, a);
  }

  lemma {:induction false} LengthBound(names: seq<string>) returns (n: nat)
    ensures forall s :: s in names ==> |s| <= n
  {
    if names == [] {
      n := 0;
    } else {
      n := LengthBound(names[1..]);
      n := if |names[0]| > n then |names[0]| else n;
    }
  }

  lemma FreshName(names: seq<string>) returns (name: string)
    ensures name != "" && name !in names
  {
    var n := LengthBound(names);
    name := seq(n + 1, _ => 'x');
  }

  /** The wildcard does not come after another resource. */
  predicate WildcardFirst(rule: Rule) {
    rule.verbs == [] || RESOURCE_ALL !in rule.resources || rule.resources[0] == RESOURCE_ALL
  }

  /** Evaluation agrees with the meaning on every action exactly when the wildcard, if any, comes first. */
  lemma EvalExact(rule: Rule)
    ensures (forall a :: Eval(rule, a) == Allows(rule, a)) <==> WildcardFirst(rule)
  {
    if WildcardFirst(rule) {
      forall a ensures Eval(rule, a) == Allows(rule, a) {
        FirstMatchIn(rule.resources, a);
      }
    } else {
      var name := FreshName(rule.resourceNames);
      var a := Action(rule.verbs[0], rule.resources[0], name);
      assert rule.verbs[0] in rule.verbs;
      assert FirstMatch(rule.resources, a) == Some(rule.resources[0]);
      assert !Eval(rule, a) && Allows(rule, a);
    }
  }

  // ---------------------------------------------------------------------------------------------
  // Storing roles
  // ---------------------------------------------------------------------------------------------

  datatype Scan = Rejected | Wildcard | Plain

  /** The verb loop of PutRole: stop at an unrecognized verb or at the wildcard. */
  function ScanVerbs(verbs: seq<Verb>): Scan {
    if verbs == [] then Plain
    else if verbs[0].UnrecognizedVerb? then Rejected
    else if verbs[0] == VERB_ALL then Wildcard
    else ScanVerbs(verbs[1..])
  }

  function ScanResources(resources: seq<Resource>): Scan {
    if resources == [] then Plain
    else if resources[0].UnrecognizedResource? then Rejected
    else if resources[0] == RESOURCE_ALL then Wildcard
    else ScanResources(resources[1..])
  }

  predicate Acceptable(rule: Rule) {
    rule.verbs != [] && rule.resources != [] && ScanVerbs(rule.verbs) != Rejected
        && ScanResources(rule.resources) != Rejected
  }

  function Squash(rule: Rule): Rule {
    rule.(verbs := if ScanVerbs(rule.verbs) == Wildcard then [VERB_ALL] else rule.verbs,
          resources := if ScanResources(rule.resources) == Wildcard then [RESOURCE_ALL] else rule.resources)
  }

  lemma {:induction false} ScanVerbsMeaning(verbs: seq<Verb>)
    ensures ScanVerbs(verbs) == Wildcard ==> VERB_ALL in verbs
    ensures ScanVerbs(verbs) == Plain ==> VERB_ALL !in verbs
  {
    if verbs != [] {
      ScanVerbsMeaning(verbs[1..]);
    }
  }

  lemma {:induction false} ScanResourcesMeaning(resources: seq<Resource>)
    ensures ScanResources(resources) == Wildcard ==> RESOURCE_ALL in resources
    ensures ScanResources(resources) == Plain ==> RESOURCE_ALL !in resources
  {
    if resources != [] {
      ScanResourcesMeaning(resources[1..]);
    }
  }

  /**
   Squashing keeps the meaning of a rule and makes evaluation agree with it; so it never turns an
   allowed action into a denied one, and turns a denied one into an allowed one only if it was meant to be.
   */
  lemma SquashMeaning(rule: Rule, a: Action)
    requires Acceptable(rule)
    ensures Allows(Squash(rule), a) == Allows(rule, a)
    ensures Eval(Squash(rule), a) == Allows(rule, a)
    ensures Eval(rule, a) ==> Eval(Squash(rule), a)
  {
    ScanVerbsMeaning(rule.verbs);
    ScanResourcesMeaning(rule.resources);
    var squashed := Squash(rule);
    if ScanVerbs(rule.verbs) == Wildcard {
      assert VERB_ALL in squashed.verbs;
    }
    assert VerbMatch(squashed, a) == VerbMatch(rule, a);
    EvalExact(squashed);
    EvalSound(rule, a);
  }

  datatype AdminError =
    NotLeader | MissingName | PermissionDenied | SystemObject | NoRules | BadRule | NoRole | NoSubjects | BadSubject

  predicate IsSystemRole(name: string) {
    name == MESH_ADMIN || name == VOTERS
  }

  method FindVerbs(verbs: seq<Verb>) returns (r: Scan)
    ensures r == ScanVerbs(verbs)
  {
    for i := 0 to |verbs|
      invariant ScanVerbs(verbs) == ScanVerbs(verbs[i..])
    {
      assert verbs[i..][1..] == verbs[i + 1..];
      if verbs[i].UnrecognizedVerb? {
        return Rejected;
      }
      if verbs[i] == VERB_ALL {
        return Wildcard;
      }
    }
    return Plain;
  }

  method FindResources(resources: seq<Resource>) returns (r: Scan)
    ensures r == ScanResources(resources)
  {
    for i := 0 to |resources|
      invariant ScanResources(resources) == ScanResources(resources[i..])
    {
      assert resources[i..][1..] == resources[i + 1..];
      if resources[i].UnrecognizedResource? {
        return Rejected;
      }
      if resources[i] == RESOURCE_ALL {
        return Wildcard;
      }
    }
    return Plain;
  }

  /** The loop over the rules, which overwrites them in place; it stops at the first unacceptable one. */
  method SquashRules(rules: array<Rule>) returns (ok: bool)
    modifies rules
    ensures ok <==> forall i :: 0 <= i < rules.Length ==> Acceptable(old(rules[i]))
    ensures ok ==> forall i :: 0 <= i < rules.Length ==> rules[i] == Squash(old(rules[i]))
  {
    for i := 0 to rules.Length
      invariant forall j :: 0 <= j < i ==> Acceptable(old(rules[j])) && rules[j] == Squash(old(rules[j]))
      invariant forall j :: i <= j < rules.Length ==> rules[j] == old(rules[j])
    {
      if |rules[i].verbs| == 0 || |rules[i].resources| == 0 {
        return false;
      }
      var verbs := FindVerbs(rules[i].verbs);
      if verbs == Rejected {
        return false;
      }
      if verbs == Wildcard {
        rules[i] := rules[i].(verbs := [VERB_ALL]);
      }
      var resources := FindResources(rules[i].resources);
      if resources == Rejected {
        return false;
      }
      if resources == Wildcard {
        rules[i] := rules[i].(resources := [RESOURCE_ALL]);
      }
    }
    return true;
  }

  // ---------------------------------------------------------------------------------------------
  // Bindings
  // ---------------------------------------------------------------------------------------------

  datatype Binding = Binding(name: string, role: string, subjects: seq<Subject>)

  predicate IsEveryone(s: Subject) {
    s.name == "*" && s.kind == SUBJECT_ALL
  }

  /** The subject loop of PutRoleBinding: what it stores, or None when it meets a bad subject first. */
  function SquashSubjects(subjects: seq<Subject>, rest: seq<Subject>): Option<seq<Subject>> {
    if rest == [] then Some(subjects)
    else if IsEveryone(rest[0]) then Some([rest[0]])
    else if rest[0].kind.UnrecognizedSubject? || !IsValidID(rest[0].name) then None
    else SquashSubjects(subjects, rest[1..])
  }

  predicate IsSystemRoleBinding(name: string) {
    name == MESH_ADMIN || name == BOOTSTRAP_VOTERS
  }

  datatype Caller = NodeCaller(id: string) | UserCaller(name: string)

  /** The subject covers the caller, as ListNodeRoles and ListUserRoles test it. */
  predicate Covers(s: Subject, c: Caller) {
    match c
    case NodeCaller(id) => (s.kind == SUBJECT_ALL || s.kind == SUBJECT_NODE) && (s.name == "*" || s.name == id)
    case UserCaller(name) => (s.kind == SUBJECT_ALL || s.kind == SUBJECT_USER) && (s.name == "*" || s.name == name)
  }

  predicate Binds(b: Binding, c: Caller) {
    exists s :: s in b.subjects && Covers(s, c)
  }

  /** The roles of the bindings that bind the caller, in order; a binding to a missing role is an error. */
  function RolesOf(roles: map<string, Role>, bindings: seq<Binding>, c: Caller): Result<seq<Role>, string> {
    if bindings == [] then Ok([]) else
      var n := |bindings| - 1;
      match RolesOf(roles, bindings[..n], c)
      case Err(e) => Err(e)
      case Ok(before) =>
        if !Binds(bindings[n], c) then Ok(before)
        else if bindings[n].role !in roles then Err(bindings[n].role)
        else Ok(before + [roles[bindings[n].role]])
  }

  const MESH_ADMIN := "mesh-admin"
  const VOTERS := "voters"
  const BOOTSTRAP_VOTERS := "bootstrap-voters"

  const ADMIN_ROLE := Role(MESH_ADMIN, [Rule([VERB_ALL], [RESOURCE_ALL], [])])

  function AdminBinding(admin: string): Binding {
    Binding(MESH_ADMIN, MESH_ADMIN, [Subject(admin, SUBJECT_NODE), Subject(admin, SUBJECT_USER)])
  }

  /** What bootstrapping stores; `put` and `votes` are the numbers of VERB_PUT and RESOURCE_VOTES. */
  function BootstrapRoles(put: int, votes: int): map<string, Role> {
    map[MESH_ADMIN := ADMIN_ROLE, VOTERS := Role(VOTERS, [Rule([Verb(put)], [Resource(votes)], [])])]
  }

  function BootstrapBindings(admin: string): map<string, Binding> {
    map[MESH_ADMIN := AdminBinding(admin),
        BOOTSTRAP_VOTERS := Binding(BOOTSTRAP_VOTERS, VOTERS, [Subject(VOTERS, SUBJECT_GROUP)])]
  }

  /** `order` lists the stored bindings, each under its own key and once. */
  ghost predicate Lists(bindings: map<string, Binding>, names: seq<string>, order: seq<Binding>) {
    && Distinct(names) && SetOf(names) == bindings.Keys && |order| == |names|
    && forall i :: 0 <= i < |names| ==> order[i] == bindings[names[i]]
  }

  /** Why Evaluate gives no answer. */
  datatype EvalError = NoPeer | MissingRole(name: string)

  class RbacStore {
    const admin: string
    var roles: map<string, Role>
    var bindings: map<string, Binding>

    constructor (admin: string, put: int, votes: int)
      ensures Valid() && this.admin == admin
      ensures roles == BootstrapRoles(put, votes) && bindings == BootstrapBindings(admin)
    {
      this.admin := admin;
      roles, bindings := BootstrapRoles(put, votes), BootstrapBindings(admin);
    }

    /** All stored rules are squashed, and the admin's role and binding are as they were bootstrapped. */
    ghost predicate Valid()
      reads this
    {
      && AllNormal(roles)
      && MESH_ADMIN in roles && roles[MESH_ADMIN] == ADMIN_ROLE
      && MESH_ADMIN in bindings && bindings[MESH_ADMIN] == AdminBinding(admin)
    }

    /** The admin PutRole; the rules of the request are overwritten in place. */
    method PutRole(isLeader: bool, permitted: bool, name: string, rules: array<Rule>) returns (err: Option<AdminError>)
      requires Valid()
      modifies this`roles, rules
      ensures Valid()
      ensures err.None? <==> isLeader && name != "" && permitted && !IsSystemRole(name) && rules.Length > 0
                             && forall i :: 0 <= i < rules.Length ==> Acceptable(old(rules[i]))
      ensures err.Some? ==> roles == old(roles)
      ensures err.None? ==> name in roles && roles == old(roles)[name := roles[name]]
      ensures err.None? ==> var stored := roles[name].rules;
                |stored| == rules.Length && forall i :: 0 <= i < rules.Length ==> stored[i] == Squash(old(rules[i]))
    {
      if !isLeader {
        return Some(NotLeader);
      }
      if name == "" {
        return Some(MissingName);
      }
      if !permitted {
        return Some(PermissionDenied);
      }
      if IsSystemRole(name) {
        return Some(SystemObject);
      }
      if rules.Length == 0 {
        return Some(NoRules);
      }
      var ok := SquashRules(rules);
      if !ok {
        return Some(BadRule);
      }
      forall i | 0 <= i < rules.Length ensures Normal(rules[i]) {
        SquashIsNormal(old(rules[i]));
      }
      roles := roles[name := Role(name, rules[..])];
      return None;
    }

    method DeleteRole(name: string) returns (err: Option<AdminError>)
      requires Valid()
      modifies this`roles
      ensures Valid()
      ensures err == if IsSystemRole(name) then Some(SystemObject) else None
      ensures roles == if err.Some? then old(roles) else old(roles) - {name}
    {
      if IsSystemRole(name) {
        return Some(SystemObject);
      }
      roles := roles - {name};
      return None;
    }

    /** The admin PutRoleBinding: a binding of the same name is replaced. */
    method PutRoleBinding(isLeader: bool, permitted: bool, b: Binding) returns (err: Option<AdminError>)
      requires Valid()
      modifies this`bindings
      ensures Valid()
      ensures err.None? <==> isLeader && b.name != "" && permitted && !IsSystemRoleBinding(b.name) && b.role != ""
                             && b.subjects != [] && SquashSubjects(b.subjects, b.subjects).Some?
      ensures err.Some? ==> bindings == old(bindings)
      ensures err.None? ==>
                bindings == old(bindings)[b.name := b.(subjects := SquashSubjects(b.subjects, b.subjects).value)]
      ensures err.None? ==> forall c :: Binds(bindings[b.name], c) == Binds(b, c)
    {
      if !isLeader {
        return Some(NotLeader);
      }
      if b.name == "" {
        return Some(MissingName);
      }
      if !permitted {
        return Some(PermissionDenied);
      }
      if IsSystemRoleBinding(b.name) {
        return Some(SystemObject);
      }
      if b.role == "" {
        return Some(NoRole);
      }
      if |b.subjects| == 0 {
        return Some(NoSubjects);
      }
      var subjects := SquashSubjectsLoop(b.subjects);
      if subjects == None {
        return Some(BadSubject);
      }
      var stored := b.(subjects := subjects.value);
      forall c ensures Binds(stored, c) == Binds(b, c) {
        SquashKeepsCallers(b, c);
      }
      bindings := bindings[b.name := stored];
      return None;
    }

    method DeleteRoleBinding(name: string) returns (err: Option<AdminError>)
      requires Valid()
      modifies this`bindings
      ensures Valid()
      ensures err == if IsSystemRoleBinding(name) then Some(SystemObject) else None
      ensures bindings == if err.Some? then old(bindings) else old(bindings) - {name}
    {
      if IsSystemRoleBinding(name) {
        return Some(SystemObject);
      }
      bindings := bindings - {name};
      return None;
    }

    method ListRoleBindings() returns (out: seq<Binding>, ghost names: seq<string>)
      ensures Lists(bindings, names, out)
    {
      out, names := [], [];
      var rest := bindings.Keys;
      while rest != {}
        invariant rest <= bindings.Keys && Distinct(names) && SetOf(names) == bindings.Keys - rest
        invariant |out| == |names| && forall i :: 0 <= i < |names| ==>
                  names[i] in bindings && out[i] == bindings[names[i]]
        decreases rest
      {
        var name :| name in rest;
        rest := rest - {name};
        assert name !in SetOf(names);
        SetOfAppend(names, name);
        out, names := out + [bindings[name]], names + [name];
      }
    }

    /** ListNodeRoles and ListUserRoles. */
    method ListRoles(c: Caller)
      returns (r: Result<seq<Role>, string>, ghost names: seq<string>, ghost order: seq<Binding>)
      ensures Lists(bindings, names, order) && r == RolesOf(roles, order, c)
    {
      var listed, listedNames := ListRoleBindings();
      names, order := listedNames, listed;
      var out: seq<Role> := [];
      for i := 0 to |listed|
        invariant RolesOf(roles, listed[..i], c) == Ok(out)
      {
        assert listed[..i + 1][..i] == listed[..i];
        var covered := AnyCovers(listed[i].subjects, c);
        if covered {
          if listed[i].role !in roles {
            ErrorsStay(roles, listed, c, i + 1);
            return Err(listed[i].role), names, order;
          }
          out := out + [roles[listed[i].role]];
        }
      }
      assert listed[..|listed|] == listed;
      return Ok(out), names, order;
    }

    /**
     storeEvaluator.Evaluate: a peer has the roles of the node and of the user of that name. On every store
     that bootstrapping and the admin service produce, the answer is the order-free one, and for the
     bootstrapped admin it is never no.
     */
    method Evaluate(peer: Option<string>, actions: seq<Action>) returns (r: Result<bool, EvalError>)
      requires Valid()
      ensures r == Err(NoPeer) <==> peer == None || peer == Some("")
      ensures peer.Some? && peer.value != "" ==>
                (r.Err? <==> exists b :: b in bindings.Values && BindsPeer(b, peer.value) && b.role !in roles)
      ensures r.Ok? ==> (r.value <==> forall a :: a in actions ==> GrantedTo(roles, bindings.Values, peer.value, a))
      ensures peer == Some(admin) && r.Ok? ==> r.value
    {
      if peer == None || peer.value == "" {
        return Err(NoPeer);
      }
      var id := peer.value;
      var nodeRoles, names, order := ListRoles(NodeCaller(id));
      StoreDecision(roles, bindings, names, order, NodeCaller(id));
      if nodeRoles.Err? {
        return Err(MissingRole(nodeRoles.error));
      }
      var userRoles, names', order' := ListRoles(UserCaller(id));
      StoreDecision(roles, bindings, names', order', UserCaller(id));
      if userRoles.Err? {
        return Err(MissingRole(userRoles.error));
      }
      if id == admin {
        forall a ensures GrantedTo(roles, bindings.Values, id, a) {
          AdminGranted(roles, bindings, id, a);
        }
      }
      var all := EvalAll(nodeRoles.value, userRoles.value, actions);
      return Ok(all);
    }
  }

  method EvalAll(nodeRoles: seq<Role>, userRoles: seq<Role>, actions: seq<Action>) returns (all: bool)
    ensures all <==> forall a :: a in actions ==> EvalRoles(nodeRoles, a) || EvalRoles(userRoles, a)
  {
    for i := 0 to |actions|
      invariant forall j :: 0 <= j < i ==> EvalRoles(nodeRoles, actions[j]) || EvalRoles(userRoles, actions[j])
    {
      if !EvalRoles(nodeRoles, actions[i]) && !EvalRoles(userRoles, actions[i]) {
        assert actions[i] in actions;
        return false;
      }
    }
    return true;
  }

  method AnyCovers(subjects: seq<Subject>, c: Caller) returns (found: bool)
    ensures found <==> exists s :: s in subjects && Covers(s, c)
  {
    for i := 0 to |subjects|
      invariant forall j :: 0 <= j < i ==> !Covers(subjects[j], c)
    {
      if Covers(subjects[i], c) {
        return true;
      }
    }
    return false;
  }

  lemma {:induction false} ErrorsStay(roles: map<string, Role>, bindings: seq<Binding>, c: Caller, n: nat)
    requires n <= |bindings| && RolesOf(roles, bindings[..n], c).Err?
    ensures RolesOf(roles, bindings, c) == RolesOf(roles, bindings[..n], c)
    decreases |bindings|
  {
    if n == |bindings| {
      assert bindings[..n] == bindings;
    } else {
      var front := bindings[..|bindings| - 1];
      assert front[..n] == bindings[..n];
      ErrorsStay(roles, front, c, n);
    }
  }

  /** A stored rule: either the wildcard alone or no wildcard. */
  predicate Normal(rule: Rule) {
    && (VERB_ALL in rule.verbs ==> rule.verbs == [VERB_ALL])
    && (RESOURCE_ALL in rule.resources ==> rule.resources == [RESOURCE_ALL])
  }

  lemma SquashIsNormal(rule: Rule)
    requires Acceptable(rule)
    ensures Normal(Squash(rule))
  {
    ScanVerbsMeaning(rule.verbs);
    ScanResourcesMeaning(rule.resources);
  }

  /** On every rule that the admin service stores, evaluation is the order-free meaning. */
  lemma NormalEval(rule: Rule, a: Action)
    requires Normal(rule)
    ensures Eval(rule, a) == Allows(rule, a)
  {
    EvalExact(rule);
  }

  // ---------------------------------------------------------------------------------------------
  // Storing bindings
  // ---------------------------------------------------------------------------------------------

  method SquashSubjectsLoop(subjects: seq<Subject>) returns (r: Option<seq<Subject>>)
    ensures r == SquashSubjects(subjects, subjects)
  {
    for i := 0 to |subjects|
      invariant SquashSubjects(subjects, subjects) == SquashSubjects(subjects, subjects[i..])
    {
      assert subjects[i..][1..] == subjects[i + 1..];
      if subjects[i].name == "*" && subjects[i].kind == SUBJECT_ALL {
        return Some([subjects[i]]);
      }
      if subjects[i].kind.UnrecognizedSubject? || !IsValidID(subjects[i].name) {
        return None;
      }
    }
    return Some(subjects);
  }

  lemma {:induction false} SquashSubjectsIs(subjects: seq<Subject>, rest: seq<Subject>)
    requires forall s :: s in rest ==> s in subjects
    ensures var r := SquashSubjects(subjects, rest);
            r == None || r == Some(subjects) || (exists s :: s in subjects && IsEveryone(s) && r == Some([s]))
  {
    if rest != [] {
      SquashSubjectsIs(subjects, rest[1..]);
    }
  }

  /** Squashing a binding binds the same callers. */
  lemma SquashKeepsCallers(b: Binding, c: Caller)
    requires SquashSubjects(b.subjects, b.subjects).Some?
    ensures Binds(b.(subjects := SquashSubjects(b.subjects, b.subjects).value), c) == Binds(b, c)
  {
    SquashSubjectsIs(b.subjects, b.subjects);
    var r := SquashSubjects(b.subjects, b.subjects).value;
    if r != b.subjects {
      var s :| s in b.subjects && IsEveryone(s) && r == [s];
      assert Covers(s, c) && s in r;
    }
  }

  /** One binding is the squashed form of the other, or the same. */
  ghost predicate SameOrSquashed(b: Binding, b': Binding) {
    b' == b || (SquashSubjects(b.subjects, b.subjects).Some?
                && b' == b.(subjects := SquashSubjects(b.subjects, b.subjects).value))
  }

  /** Whichever bindings were squashed before they were stored, each caller has the same roles, or the same error. */
  lemma {:induction false} SquashKeepsRoles(roles: map<string, Role>, bs: seq<Binding>, bs': seq<Binding>, c: Caller)
    requires |bs'| == |bs| && forall i :: 0 <= i < |bs| ==> SameOrSquashed(bs[i], bs'[i])
    ensures RolesOf(roles, bs', c) == RolesOf(roles, bs, c)
    decreases |bs|
  {
    if bs != [] {
      var n := |bs| - 1;
      SquashKeepsRoles(roles, bs[..n], bs'[..n], c);
      assert SameOrSquashed(bs[n], bs'[n]);
      if bs'[n] != bs[n] {
        SquashKeepsCallers(bs[n], c);
      }
    }
  }

  // ---------------------------------------------------------------------------------------------
  // The decision
  // ---------------------------------------------------------------------------------------------

  /** Some binding of the caller grants the action through a rule of its role. */
  predicate Granted(roles: map<string, Role>, bindings: set<Binding>, c: Caller, a: Action) {
    exists b :: b in bindings && Binds(b, c) && b.role in roles
                && exists rule :: rule in roles[b.role].rules && Allows(rule, a)
  }

  predicate GrantedTo(roles: map<string, Role>, bindings: set<Binding>, peer: string, a: Action) {
    Granted(roles, bindings, NodeCaller(peer), a) || Granted(roles, bindings, UserCaller(peer), a)
  }

  predicate BindsPeer(b: Binding, peer: string) {
    Binds(b, NodeCaller(peer)) || Binds(b, UserCaller(peer))
  }

  lemma ListsValues(bindings: map<string, Binding>, names: seq<string>, order: seq<Binding>)
    requires Lists(bindings, names, order)
    ensures SetOf(order) == bindings.Values
  {
    forall b | b in bindings.Values ensures b in order {
      var name :| name in bindings && bindings[name] == b;
      assert name in SetOf(names);
      var i :| 0 <= i < |names| && names[i] == name;
      assert order[i] == b;
    }
    forall b | b in order ensures b in bindings.Values {
      var i :| 0 <= i < |order| && order[i] == b;
      assert names[i] in SetOf(names);
    }
  }

  lemma AdminGranted(roles: map<string, Role>, bindings: map<string, Binding>, admin: string, a: Action)
    requires MESH_ADMIN in roles && roles[MESH_ADMIN] == ADMIN_ROLE
    requires MESH_ADMIN in bindings && bindings[MESH_ADMIN] == AdminBinding(admin)
    ensures GrantedTo(roles, bindings.Values, admin, a)
  {
    var b := bindings[MESH_ADMIN];
    assert Covers(b.subjects[0], NodeCaller(admin));
    var rule := ADMIN_ROLE.rules[0];
    assert VERB_ALL in rule.verbs && RESOURCE_ALL in rule.resources;
    assert rule in roles[b.role].rules && Allows(rule, a);
    assert b in bindings.Values && Binds(b, NodeCaller(admin));
  }

  ghost predicate AllNormal(roles: map<string, Role>) {
    forall name, rule :: name in roles && rule in roles[name].rules ==> Normal(rule)
  }

  lemma RoleDecides(role: Role, a: Action)
    requires forall rule :: rule in role.rules ==> Normal(rule)
    ensures EvalRole(role, a) <==> exists rule :: rule in role.rules && Allows(rule, a)
  {
    forall rule | rule in role.rules ensures Eval(rule, a) == Allows(rule, a) {
      NormalEval(rule, a);
    }
  }

  lemma {:induction false} RolesOfMembers(roles: map<string, Role>, bindings: seq<Binding>, c: Caller)
    ensures var r := RolesOf(roles, bindings, c);
            && (r.Err? <==> exists b :: b in bindings && Binds(b, c) && b.role !in roles)
            && (r.Ok? ==> forall role :: role in r.value <==>
                  exists b :: b in bindings && Binds(b, c) && b.role in roles && roles[b.role] == role)
    decreases |bindings|
  {
    if bindings != [] {
      var n := |bindings| - 1;
      RolesOfMembers(roles, bindings[..n], c);
      assert bindings == bindings[..n] + [bindings[n]];
    }
  }

  /**
   The whole decision: with rules as the admin service stores them, an action is allowed exactly when a
   binding covers the caller and a rule of its role grants the action, in whatever order all of these
   are listed. The caller's roles cannot be determined exactly when such a binding names no stored role.
   */
  lemma AccessDecision(roles: map<string, Role>, bindings: seq<Binding>, c: Caller, a: Action)
    requires AllNormal(roles)
    ensures RolesOf(roles, bindings, c).Err? <==> exists b :: b in bindings && Binds(b, c) && b.role !in roles
    ensures RolesOf(roles, bindings, c).Ok? ==>
              (EvalRoles(RolesOf(roles, bindings, c).value, a) <==> Granted(roles, SetOf(bindings), c, a))
  {
    RolesOfMembers(roles, bindings, c);
    forall name | name in roles
      ensures EvalRole(roles[name], a) <==> exists rule :: rule in roles[name].rules && Allows(rule, a)
    {
      RoleDecides(roles[name], a);
    }
  }

  /** The same for the bindings of a store, in whatever order they are listed. */
  lemma StoreDecision(
    roles: map<string, Role>, bindings: map<string, Binding>, names: seq<string>, order: seq<Binding>, c: Caller)
    requires AllNormal(roles) && Lists(bindings, names, order)
    ensures RolesOf(roles, order, c).Err? <==> exists b :: b in bindings.Values && Binds(b, c) && b.role !in roles
    ensures RolesOf(roles, order, c).Ok? ==>
              forall a :: EvalRoles(RolesOf(roles, order, c).value, a) <==> Granted(roles, bindings.Values, c, a)
  {
    ListsValues(bindings, names, order);
    assert forall b :: b in order <==> b in SetOf(order);
    RolesOfMembers(roles, order, c);
    forall a ensures RolesOf(roles, order, c).Ok? ==>
                       (EvalRoles(RolesOf(roles, order, c).value, a) <==> Granted(roles, SetOf(order), c, a)) {
      AccessDecision(roles, order, c, a);
    }
  }

  /**
   A binding covers nobody through a group. So after bootstrapping the voters' binding grants nothing: an
   action is granted exactly to the admin, or to everyone if the admin is the wildcard.
   */
  lemma BootstrapGrants(admin: string, put: int, votes: int, peer: string, a: Action)
    ensures GrantedTo(BootstrapRoles(put, votes), BootstrapBindings(admin).Values, peer, a) <==>
            peer == admin || admin == "*"
  {
    var roles, bindings := BootstrapRoles(put, votes), BootstrapBindings(admin);
    var b := bindings[MESH_ADMIN];
    if peer == admin || admin == "*" {
      assert Covers(b.subjects[0], NodeCaller(peer));
      var rule := ADMIN_ROLE.rules[0];
      assert VERB_ALL in rule.verbs && RESOURCE_ALL in rule.resources;
      assert rule in roles[b.role].rules && Allows(rule, a);
      assert b in bindings.Values && Binds(b, NodeCaller(peer));
    } else {
      forall v | v in bindings.Values ensures !BindsPeer(v, peer) {
        assert v == b || v == bindings[BOOTSTRAP_VOTERS];
      }
    }
  }

  // ---------------------------------------------------------------------------------------------
  // In the terms of the requests
  // ---------------------------------------------------------------------------------------------

  /** Whom a binding covers: a node by name among its nodes, a user among its users, both through the wildcard. */
  lemma BindsExact(b: Binding, peer: string)
    ensures Binds(b, NodeCaller(peer)) <==>
            exists s :: s in b.subjects && s.kind in {SUBJECT_ALL, SUBJECT_NODE} && s.name in {"*", peer}
    ensures Binds(b, UserCaller(peer)) <==>
            exists s :: s in b.subjects && s.kind in {SUBJECT_ALL, SUBJECT_USER} && s.name in {"*", peer}
  {
  }

  /** Some subject names the peer or everyone, as a node, as a user or as either. */
  predicate NamesPeer(b: Binding, peer: string) {
    exists s :: s in b.subjects && s.kind in {SUBJECT_ALL, SUBJECT_NODE, SUBJECT_USER} && s.name in {"*", peer}
  }

  /** The rule lists the verb, and the resource with the name if one is given, or the wildcards. */
  predicate ListsAction(rule: Rule, a: Action) {
    && (a.verb in rule.verbs || VERB_ALL in rule.verbs)
    && (|| RESOURCE_ALL in rule.resources
        || (a.resource in rule.resources && (a.resourceName == "" || a.resourceName in rule.resourceNames)))
  }

  /**
   What Evaluate answers, told by the records alone: an action is granted to a peer exactly when a binding
   names the peer and a rule of the role it names lists the action.
   */
  lemma GrantedExact(roles: map<string, Role>, bindings: set<Binding>, peer: string, a: Action)
    ensures GrantedTo(roles, bindings, peer, a) <==>
            exists b, rule :: b in bindings && NamesPeer(b, peer) && b.role in roles
                              && rule in roles[b.role].rules && ListsAction(rule, a)
    ensures forall b :: BindsPeer(b, peer) <==> NamesPeer(b, peer)
  {
    forall b ensures BindsPeer(b, peer) <==> NamesPeer(b, peer) {
      BindsExact(b, peer);
    }
    if GrantedTo(roles, bindings, peer, a) {
      var c := if Granted(roles, bindings, NodeCaller(peer), a) then NodeCaller(peer) else UserCaller(peer);
      var b :| b in bindings && Binds(b, c) && b.role in roles
               && exists rule :: rule in roles[b.role].rules && Allows(rule, a);
      var rule :| rule in roles[b.role].rules && Allows(rule, a);
      assert BindsPeer(b, peer) && ListsAction(rule, a);
    }
    if b, rule :| b in bindings && NamesPeer(b, peer) && b.role in roles
                  && rule in roles[b.role].rules && ListsAction(rule, a) {
      assert BindsPeer(b, peer) && Allows(rule, a);
    }
  }

  /** The names that PutRole, PutRoleBinding and the deletions refuse. */
  lemma SystemNames(name: string)
    ensures IsSystemRole(name) <==> name == "mesh-admin" || name == "voters"
    ensures IsSystemRoleBinding(name) <==> name == "mesh-admin" || name == "bootstrap-voters"
  {
  }

  /** Nothing unrecognized comes before the first wildcard. */
  ghost predicate VerbsRecognized(verbs: seq<Verb>) {
    forall i :: 0 <= i < |verbs| && verbs[i].UnrecognizedVerb? ==> exists j :: 0 <= j < i && verbs[j] == VERB_ALL
  }

  ghost predicate ResourcesRecognized(resources: seq<Resource>) {
    forall i :: 0 <= i < |resources| && resources[i].UnrecognizedResource? ==>
      exists j :: 0 <= j < i && resources[j] == RESOURCE_ALL
  }

  lemma {:induction false} ScanVerbsExact(verbs: seq<Verb>)
    ensures ScanVerbs(verbs) != Rejected <==> VerbsRecognized(verbs)
  {
    if verbs != [] && !verbs[0].UnrecognizedVerb? && verbs[0] != VERB_ALL {
      var rest := verbs[1..];
      ScanVerbsExact(rest);
      if VerbsRecognized(rest) {
        forall i | 0 <= i < |verbs| && verbs[i].UnrecognizedVerb?
          ensures exists j :: 0 <= j < i && verbs[j] == VERB_ALL
        {
          assert rest[i - 1] == verbs[i];
          var j :| 0 <= j < i - 1 && rest[j] == VERB_ALL;
          assert verbs[j + 1] == VERB_ALL;
        }
      } else {
        var i :| 0 <= i < |rest| && rest[i].UnrecognizedVerb? && forall j :: 0 <= j < i ==> rest[j] != VERB_ALL;
        assert verbs[i + 1] == rest[i];
        assert forall j :: 0 < j < i + 1 ==> verbs[j] == rest[j - 1];
      }
    }
  }

  lemma {:induction false} ScanResourcesExact(resources: seq<Resource>)
    ensures ScanResources(resources) != Rejected <==> ResourcesRecognized(resources)
  {
    if resources != [] && !resources[0].UnrecognizedResource? && resources[0] != RESOURCE_ALL {
      var rest := resources[1..];
      ScanResourcesExact(rest);
      if ResourcesRecognized(rest) {
        forall i | 0 <= i < |resources| && resources[i].UnrecognizedResource?
          ensures exists j :: 0 <= j < i && resources[j] == RESOURCE_ALL
        {
          assert rest[i - 1] == resources[i];
          var j :| 0 <= j < i - 1 && rest[j] == RESOURCE_ALL;
          assert resources[j + 1] == RESOURCE_ALL;
        }
      } else {
        var i :| 0 <= i < |rest| && rest[i].UnrecognizedResource?
                 && forall j :: 0 <= j < i ==> rest[j] != RESOURCE_ALL;
        assert resources[i + 1] == rest[i];
        assert forall j :: 0 < j < i + 1 ==> resources[j] == rest[j - 1];
      }
    }
  }

  /** Which rules PutRole accepts. */
  lemma AcceptableExact(rule: Rule)
    ensures Acceptable(rule) <==>
            && rule.verbs != [] && rule.resources != []
            && VerbsRecognized(rule.verbs) && ResourcesRecognized(rule.resources)
  {
    ScanVerbsExact(rule.verbs);
    ScanResourcesExact(rule.resources);
  }

  /** The subject is recognized and named by a valid ID. */
  predicate SubjectGood(s: Subject) {
    !s.kind.UnrecognizedSubject? && IsValidID(s.name)
  }

  /** The first n subjects are good, and then comes everyone or the end. */
  ghost predicate GoodUpTo(subjects: seq<Subject>, n: nat) {
    && n <= |subjects|
    && (forall i :: 0 <= i < n ==> SubjectGood(subjects[i]))
    && (n < |subjects| ==> subjects[n].name == "*" && subjects[n].kind == SUBJECT_ALL)
  }

  lemma GoodTail(subjects: seq<Subject>, n: nat)
    requires subjects != [] && SubjectGood(subjects[0])
    ensures GoodUpTo(subjects[1..], n) <==> GoodUpTo(subjects, n + 1)
  {
    var tail := subjects[1..];
    assert forall i :: 0 <= i < |tail| ==> tail[i] == subjects[i + 1];
    if GoodUpTo(tail, n) {
      forall i | 0 <= i < n + 1 ensures SubjectGood(subjects[i]) {
        assert i > 0 ==> tail[i - 1] == subjects[i];
      }
    }
  }

  /** Which subjects PutRoleBinding and PutGroup accept: none that is bad comes before the first everyone. */
  lemma {:induction false} SubjectsExact(subjects: seq<Subject>, rest: seq<Subject>)
    ensures SquashSubjects(subjects, rest).Some? <==> exists n: nat :: GoodUpTo(rest, n)
  {
    if rest == [] {
      assert GoodUpTo(rest, 0);
    } else if IsEveryone(rest[0]) {
      assert GoodUpTo(rest, 0);
    } else if SubjectGood(rest[0]) {
      SubjectsExact(subjects, rest[1..]);
      if n: nat :| GoodUpTo(rest[1..], n) {
        GoodTail(rest, n);
      }
      if n: nat :| GoodUpTo(rest, n) {
        assert n > 0;
        GoodTail(rest, n - 1);
      }
    } else {
      assert forall n: nat :: GoodUpTo(rest, n) ==> n == 0;
    }
  }
}
