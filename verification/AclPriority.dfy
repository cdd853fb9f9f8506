/**
 Sorting ACLs by priority before evaluating them (pkg/meshdb/networking/eval.go). The sort itself is
 Go's, so the theorems quantify over every sorted permutation.
 */
module AclPriority {
  import opened NetworkAcls

  predicate SortedDescending(acls: seq<Acl>) {
    forall i, j :: 0 <= i < j < |acls| ==> acls[i].priority >= acls[j].priority
  }

  /** Any outcome of Sort(SortDescending); the sort need not be stable. */
  predicate IsSortOf(sorted: seq<Acl>, acls: seq<Acl>) {
    multiset(sorted) == multiset(acls) && SortedDescending(sorted)
  }

  lemma SortKeepsMembers(acls: seq<Acl>, sorted: seq<Acl>)
    requires IsSortOf(sorted, acls)
    ensures forall x :: x in acls <==> x in sorted
  {
    forall x ensures x in acls <==> x in sorted {
      assert multiset(sorted)[x] == multiset(acls)[x];
    }
  }

  /** A matching ACL of maximal priority. */
  predicate Top(groups: Groups, acls: seq<Acl>, a: NetworkAction, x: Acl) {
    && x in acls
    && PureMatches(groups, x, a)
    && forall y :: y in acls && PureMatches(groups, y, a) ==> y.priority <= x.priority
  }

  ghost predicate NoMatch(groups: Groups, acls: seq<Acl>, a: NetworkAction) {
    forall x :: x in acls ==> !PureMatches(groups, x, a)
  }

  lemma FirstMatch(groups: Groups, acls: seq<Acl>, a: NetworkAction) returns (i: nat)
    ensures i <= |acls|
    ensures forall k :: 0 <= k < i ==> !PureMatches(groups, acls[k], a)
    ensures i < |acls| ==> PureMatches(groups, acls[i], a)
  {
    i := 0;
    while i < |acls| && !PureMatches(groups, acls[i], a)
      invariant i <= |acls|
      invariant forall k :: 0 <= k < i ==> !PureMatches(groups, acls[k], a)
    {
      i := i + 1;
    }
  }

  /** After sorting, the decision is that of a matching ACL of maximal priority, or deny. */
  lemma PriorityDecides(groups: Groups, acls: seq<Acl>, sorted: seq<Acl>, a: NetworkAction)
    requires IsSortOf(sorted, acls)
    ensures NoMatch(groups, acls, a) ==> !PureAccept(groups, sorted, a)
    ensures !NoMatch(groups, acls, a) ==>
              exists x :: Top(groups, acls, a, x) && (PureAccept(groups, sorted, a) <==> x.action == ACTION_ACCEPT)
  {
    var i := FirstMatch(groups, sorted, a);
    AcceptAt(groups, sorted, a, i);
    SortKeepsMembers(acls, sorted);
    if i < |sorted| {
      assert sorted[i] in sorted;
      assert Top(groups, acls, a, sorted[i]);
    }
  }

  /** All matching ACLs of maximal priority say the same. */
  ghost predicate TopsAgree(groups: Groups, acls: seq<Acl>, a: NetworkAction) {
    forall x, y :: Top(groups, acls, a, x) && Top(groups, acls, a, y) ==>
      (x.action == ACTION_ACCEPT <==> y.action == ACTION_ACCEPT)
  }

  lemma SwapIsSort(acls: seq<Acl>, sorted: seq<Acl>, i: nat, j: nat)
    requires IsSortOf(sorted, acls) && i < |sorted| && j < |sorted| && sorted[i].priority == sorted[j].priority
    ensures IsSortOf(sorted[i := sorted[j]][j := sorted[i]], acls)
  {
    var swapped := sorted[i := sorted[j]][j := sorted[i]];
    assert multiset(swapped) == multiset(sorted);
    assert forall k :: 0 <= k < |sorted| ==> swapped[k].priority == sorted[k].priority;
  }

  /** Another top match can be moved to the place of the first one. */
  lemma OtherTopFirst(groups: Groups, acls: seq<Acl>, sorted: seq<Acl>, a: NetworkAction, i: nat, other: Acl)
    requires IsSortOf(sorted, acls) && i < |sorted| && PureMatches(groups, sorted[i], a)
    requires forall k :: 0 <= k < i ==> !PureMatches(groups, sorted[k], a)
    requires other in sorted && PureMatches(groups, other, a) && other.priority == sorted[i].priority
    ensures exists s' :: IsSortOf(s', acls) && (PureAccept(groups, s', a) <==> other.action == ACTION_ACCEPT)
  {
    var j :| 0 <= j < |sorted| && sorted[j] == other;
    var s' := sorted[i := sorted[j]][j := sorted[i]];
    SwapIsSort(acls, sorted, i, j);
    assert s'[i] == other;
    AcceptAt(groups, s', a, i);
  }

  /** If two top matches disagree, then so do two outcomes of the sort. */
  lemma DisagreeingSorts(groups: Groups, acls: seq<Acl>, sorted: seq<Acl>, a: NetworkAction)
    requires IsSortOf(sorted, acls) && !TopsAgree(groups, acls, a)
    ensures exists s' :: IsSortOf(s', acls) && PureAccept(groups, s', a) != PureAccept(groups, sorted, a)
  {
    SortKeepsMembers(acls, sorted);
    var x, y :| Top(groups, acls, a, x) && Top(groups, acls, a, y)
                && (x.action == ACTION_ACCEPT) != (y.action == ACTION_ACCEPT);
    var i := FirstMatch(groups, sorted, a);
    AcceptAt(groups, sorted, a, i);
    var other := if (x.action == ACTION_ACCEPT) == (sorted[i].action == ACTION_ACCEPT) then y else x;
    assert Top(groups, acls, a, other) && sorted[i] in acls && sorted[i].priority == other.priority;
    OtherTopFirst(groups, acls, sorted, a, i, other);
  }

  /** The decision is the same for every outcome of the sort exactly when the top matches agree. */
  lemma DecisionUnique(groups: Groups, acls: seq<Acl>, sorted: seq<Acl>, a: NetworkAction)
    requires IsSortOf(sorted, acls)
    ensures (forall s' :: IsSortOf(s', acls) ==> PureAccept(groups, s', a) == PureAccept(groups, sorted, a))
            <==> TopsAgree(groups, acls, a)
  {
    if TopsAgree(groups, acls, a) {
      forall s' | IsSortOf(s', acls) ensures PureAccept(groups, s', a) == PureAccept(groups, sorted, a) {
        PriorityDecides(groups, acls, s', a);
        PriorityDecides(groups, acls, sorted, a);
      }
    } else {
      DisagreeingSorts(groups, acls, sorted, a);
    }
  }

  lemma Prepend(x: Acl, rest: seq<Acl>)
    requires SortedDescending(rest) && (rest != [] ==> x.priority >= rest[0].priority)
    ensures SortedDescending([x] + rest) && multiset([x] + rest) == multiset{x} + multiset(rest)
  {
  }

  lemma {:induction false} Insert(x: Acl, sorted: seq<Acl>) returns (more: seq<Acl>)
    requires SortedDescending(sorted)
    ensures SortedDescending(more) && multiset(more) == multiset(sorted) + multiset{x}
    ensures more != [] && (more[0] == x || (sorted != [] && more[0] == sorted[0]))
  {
    if sorted == [] || sorted[0].priority <= x.priority {
      Prepend(x, sorted);
      more := [x] + sorted;
    } else {
      var rest := Insert(x, sorted[1..]);
      Prepend(sorted[0], rest);
      assert sorted == [sorted[0]] + sorted[1..];
      more := [sorted[0]] + rest;
    }
  }

  lemma {:induction false} SortExists(acls: seq<Acl>) returns (sorted: seq<Acl>)
    ensures IsSortOf(sorted, acls)
  {
    if acls == [] {
      sorted := [];
    } else {
      sorted := SortExists(acls[1..]);
      sorted := Insert(acls[0], sorted);
      assert acls == [acls[0]] + acls[1..];
    }
  }

  /** The first match of the list as it stands says the same as every matching ACL of maximal priority. */
  ghost predicate FirstIsTop(groups: Groups, acls: seq<Acl>, a: NetworkAction, first: Acl) {
    forall x :: Top(groups, acls, a, x) ==> (x.action == ACTION_ACCEPT <==> first.action == ACTION_ACCEPT)
  }

  /**
   FilterGraph uses the list as listed. With `i` the first match, or the length of the list when there is
   none: the list decides as each outcome of the sort would exactly when the i-th ACL says the same as
   every matching ACL of maximal priority.
   */
  lemma ListedOrderDecides(groups: Groups, acls: seq<Acl>, a: NetworkAction, i: nat)
    requires i <= |acls| && forall k :: 0 <= k < i ==> !PureMatches(groups, acls[k], a)
    requires i < |acls| ==> PureMatches(groups, acls[i], a)
    ensures (forall s :: IsSortOf(s, acls) ==> PureAccept(groups, s, a) == PureAccept(groups, acls, a))
            <==> (i < |acls| ==> FirstIsTop(groups, acls, a, acls[i]))
  {
    AcceptAt(groups, acls, a, i);
    if i == |acls| || FirstIsTop(groups, acls, a, acls[i]) {
      forall s | IsSortOf(s, acls) ensures PureAccept(groups, s, a) == PureAccept(groups, acls, a) {
        PriorityDecides(groups, acls, s, a);
        assert i < |acls| ==> acls[i] in acls;
      }
    } else {
      var sorted := SortExists(acls);
      DecisionUnique(groups, acls, sorted, a);
      PriorityDecides(groups, acls, sorted, a);
      assert acls[i] in acls;
    }
  }

  /** A list of two on which it does not: the listed order takes the decision of the lower priority. */
  lemma ListedOrderMisleads(groups: Groups, low: Acl, high: Acl, a: NetworkAction)
    requires PureMatches(groups, low, a) && PureMatches(groups, high, a) && low.priority < high.priority
    requires (low.action == ACTION_ACCEPT) != (high.action == ACTION_ACCEPT)
    ensures IsSortOf([high, low], [low, high])
    ensures PureAccept(groups, [high, low], a) != PureAccept(groups, [low, high], a)
  {
    assert multiset([high, low]) == multiset([low, high]);
    AcceptAt(groups, [low, high], a, 0);
    AcceptAt(groups, [high, low], a, 0);
  }
}
