/**
 Reconciling the WireGuard interface with the wanted peers (RefreshPeers in pkg/net/manager.go, PutPeer
 and DeletePeer in pkg/net/wireguard/wireguard_peers.go).

 The interface keeps a map from peer IDs to public keys; the device knows keys only. Whether a device
 call, a lookup or a route fails is a parameter of each step.
 */
module PeerReconcile {
  import opened Wrappers

  type Key = nat

  type Registered = map<string, Key>

  /** What the interface has registered, and the keys configured on the device. */
  datatype WG = WG(peers: Registered, device: set<Key>)

  /** Which of the calls that addPeer makes for this peer fail. */
  datatype Faults = Faults(prepare: bool, delete: bool, resolve: bool, configure: bool, route: bool)

  /** A wanted peer. */
  datatype Want = Want(id: string, key: Key, faults: Faults)

  function Image(m: Registered): set<Key> {
    set id | id in m :: m[id]
  }

  // ---------------------------------------------------------------------------------------------
  // Steps
  // ---------------------------------------------------------------------------------------------

  /** DeletePeer: the ID is forgotten first, whatever the device says. */
  function DeleteStep(w: WG, id: string, fails: bool): (WG, bool) {
    if id !in w.peers then (w, false) else
      var forgotten := w.(peers := w.peers - {id});
      if fails then (forgotten, true) else (forgotten.(device := w.device - {w.peers[id]}), false)
  }

  /** PutPeer: a peer known under another key is deleted before it is configured. */
  function PutStep(w: WG, want: Want): (WG, bool) {
    var (w1, err) := if want.id in w.peers && w.peers[want.id] != want.key
                     then DeleteStep(w, want.id, want.faults.delete)
                     else (w, false);
    if err || want.faults.resolve || want.faults.configure then (w1, true)
    else (WG(w1.peers[want.id := want.key], w1.device + {want.key}), want.faults.route)
  }

  /** addPeer: whatever precedes PutPeer may fail. */
  function AddStep(w: WG, want: Want): (WG, bool) {
    if want.faults.prepare then (w, true) else PutStep(w, want)
  }

  /** The first loop, after n wanted peers. */
  function AddAll(w: WG, wants: seq<Want>, n: nat): (WG, bool)
    requires n <= |wants|
  {
    if n == 0 then (w, false) else
      var (w1, err1) := AddAll(w, wants, n - 1);
      var (w2, err2) := AddStep(w1, wants[n - 1]);
      (w2, err1 || err2)
  }

  /** The IDs and keys of the first n wanted peers. */
  function IdsTo(wants: seq<Want>, n: nat): set<string>
    requires n <= |wants|
  {
    set i | 0 <= i < n :: wants[i].id
  }

  function KeysTo(wants: seq<Want>, n: nat): set<Key>
    requires n <= |wants|
  {
    set i | 0 <= i < n :: wants[i].key
  }

  function Ids(wants: seq<Want>): set<string> {
    IdsTo(wants, |wants|)
  }

  function Keys(wants: seq<Want>): set<Key> {
    KeysTo(wants, |wants|)
  }

  /** The second loop, after n listed peers: drop those that were there before and are not wanted. */
  function DropAll(w: WG, current: seq<string>, n: nat, wanted: set<string>, failing: set<string>): (WG, bool)
    requires n <= |current|
  {
    if n == 0 then (w, false) else
      var (w1, err1) := DropAll(w, current, n - 1, wanted, failing);
      var id := current[n - 1];
      if id in wanted then (w1, err1) else
        var (w2, err2) := DeleteStep(w1, id, id in failing);
        (w2, err1 || err2)
  }

  /** RefreshPeers; `current` is the order in which the registered IDs were listed. */
  function RefreshStep(w: WG, wants: seq<Want>, current: seq<string>, failing: set<string>): (WG, bool) {
    var (w1, err1) := AddAll(w, wants, |wants|);
    var (w2, err2) := DropAll(w1, current, |current|, Ids(wants), failing);
    (w2, err1 || err2)
  }

  // ---------------------------------------------------------------------------------------------
  // The interface
  // ---------------------------------------------------------------------------------------------

  class WGInterface {
    var peers: Registered
    var device: set<Key>

    constructor ()
      ensures View() == WG(map[], {})
    {
      peers, device := map[], {};
    }

    function View(): WG
      reads this
    {
      WG(peers, device)
    }

    method Peers() returns (ids: seq<string>)
      ensures Distinct(ids) && SetOf(ids) == peers.Keys
    {
      ids := [];
      var rest := peers.Keys;
      while rest != {}
        invariant rest <= peers.Keys
        invariant Distinct(ids) && SetOf(ids) == peers.Keys - rest
        decreases rest
      {
        var id :| id in rest;
        rest := rest - {id};
        assert id !in SetOf(ids);
        SetOfAppend(ids, id);
        ids := ids + [id];
      }
    }

    method DeletePeer(id: string, fails: bool) returns (err: bool)
      modifies this
      ensures (View(), err) == DeleteStep(old(View()), id, fails)
    {
      if id in peers {
        var key := peers[id];
        peers := peers - {id};
        if fails {
          return true;
        }
        device := device - {key};
      }
      return false;
    }

    method PutPeer(want: Want) returns (err: bool)
      modifies this
      ensures (View(), err) == PutStep(old(View()), want)
    {
      if want.id in peers && peers[want.id] != want.key {
        err := DeletePeer(want.id, want.faults.delete);
        if err {
          return true;
        }
      }
      if want.faults.resolve || want.faults.configure {
        return true;
      }
      device := device + {want.key};
      peers := peers[want.id := want.key];
      return want.faults.route;
    }
  }

  /** RefreshPeers on a started interface; the manager does nothing before there is one. */
  method RefreshPeers(wg: WGInterface, wants: seq<Want>, failing: set<string>)
    returns (failed: bool, ghost current: seq<string>)
    modifies wg
    ensures Distinct(current) && SetOf(current) == old(wg.peers).Keys
    ensures (wg.View(), failed) == RefreshStep(old(wg.View()), wants, current, failing)
  {
    var currentPeers := wg.Peers();
    var seenPeers := {};
    failed := false;
    for i := 0 to |wants|
      invariant seenPeers == IdsTo(wants, i)
      invariant (wg.View(), failed) == AddAll(old(wg.View()), wants, i)
    {
      seenPeers := seenPeers + {wants[i].id};
      if wants[i].faults.prepare {
        failed := true;
      } else {
        var err := wg.PutPeer(wants[i]);
        failed := failed || err;
      }
    }
    ghost var added, addFailed := wg.View(), failed;
    var dropFailed := false;
    for i := 0 to |currentPeers|
      invariant (wg.View(), dropFailed) == DropAll(added, currentPeers, i, Ids(wants), failing)
    {
      var peer := currentPeers[i];
      if peer !in seenPeers {
        var err := wg.DeletePeer(peer, peer in failing);
        dropFailed := dropFailed || err;
      }
    }
    return failed || dropFailed, currentPeers;
  }

  /** When adding a peer reports an error, and that it has no effect unless only the routes failed. */
  lemma AddFails(w: WG, want: Want)
    ensures var rotates := want.id in w.peers && w.peers[want.id] != want.key;
            var (w', err) := AddStep(w, want);
            var f := want.faults;
            && (err <==> f.prepare || (rotates && f.delete) || f.resolve || f.configure || f.route)
            && (err && (f.prepare || (rotates && f.delete) || f.resolve || f.configure) ==>
                  && (w'.peers == if f.prepare || !rotates then w.peers else w.peers - {want.id})
                  && (w'.device == if f.prepare || !rotates || f.delete then w.device
                                   else w.device - {w.peers[want.id]}))
            && (!f.prepare && !(rotates && f.delete) && !f.resolve && !f.configure ==>
                  want.id in w'.peers && w'.peers[want.id] == want.key && want.key in w'.device)
  {
  }

  // ---------------------------------------------------------------------------------------------
  // What every refresh keeps, failing or not
  // ---------------------------------------------------------------------------------------------

  /** No key is ever used by two IDs: each key has one owner. */
  ghost predicate Owned(owner: Key -> string, m: Registered) {
    forall id :: id in m ==> owner(m[id]) == id
  }

  ghost predicate OwnedWants(owner: Key -> string, wants: seq<Want>) {
    forall i :: 0 <= i < |wants| ==> owner(wants[i].key) == wants[i].id
  }

  /** Keys on the device that no registered peer accounts for. */
  function Orphans(w: WG): set<Key> {
    w.device - Image(w.peers)
  }

  /** Every registered key is on the device, under its owner. */
  ghost predicate Safe(owner: Key -> string, w: WG) {
    Owned(owner, w.peers) && Image(w.peers) <= w.device
  }

  lemma ImageDelete(owner: Key -> string, m: Registered, id: string)
    requires Owned(owner, m) && id in m
    ensures Image(m - {id}) == Image(m) - {m[id]}
  {
    forall k | k in Image(m) && k != m[id] ensures k in Image(m - {id}) {
      var i :| i in m && m[i] == k;
      assert i in m - {id};
    }
  }

  lemma ImagePut(m: Registered, id: string, key: Key)
    requires id in m ==> m[id] == key
    ensures Image(m[id := key]) == Image(m) + {key}
  {
    var m' := m[id := key];
    forall k | k in Image(m) ensures k in Image(m') {
      var i :| i in m && m[i] == k;
      assert i in m' && m'[i] == k;
    }
    assert id in m' && m'[id] == key;
  }

  lemma DeleteSafe(owner: Key -> string, w: WG, id: string, fails: bool)
    requires Safe(owner, w)
    ensures Safe(owner, DeleteStep(w, id, fails).0)
    ensures Orphans(w) <= Orphans(DeleteStep(w, id, fails).0)
  {
    if id in w.peers {
      ImageDelete(owner, w.peers, id);
    }
  }

  lemma AddSafe(owner: Key -> string, w: WG, want: Want)
    requires Safe(owner, w) && owner(want.key) == want.id
    ensures Safe(owner, AddStep(w, want).0)
    ensures Orphans(w) - {want.key} <= Orphans(AddStep(w, want).0)
  {
    var rotates := want.id in w.peers && w.peers[want.id] != want.key;
    if rotates {
      DeleteSafe(owner, w, want.id, want.faults.delete);
    }
    var w1 := if rotates then DeleteStep(w, want.id, want.faults.delete).0 else w;
    ImagePut(w1.peers, want.id, want.key);
  }

  lemma {:induction false} AddAllSafe(owner: Key -> string, w: WG, wants: seq<Want>, n: nat)
    requires Safe(owner, w) && OwnedWants(owner, wants) && n <= |wants|
    ensures Safe(owner, AddAll(w, wants, n).0)
    ensures Orphans(w) - KeysTo(wants, n) <= Orphans(AddAll(w, wants, n).0)
  {
    if n > 0 {
      AddAllSafe(owner, w, wants, n - 1);
      AddSafe(owner, AddAll(w, wants, n - 1).0, wants[n - 1]);
    }
  }

  lemma {:induction false} DropAllSafe(
    owner: Key -> string, w: WG, current: seq<string>, n: nat, wanted: set<string>, failing: set<string>)
    requires Safe(owner, w) && n <= |current|
    ensures Safe(owner, DropAll(w, current, n, wanted, failing).0)
    ensures Orphans(w) <= Orphans(DropAll(w, current, n, wanted, failing).0)
  {
    if n > 0 {
      DropAllSafe(owner, w, current, n - 1, wanted, failing);
      DeleteSafe(owner, DropAll(w, current, n - 1, wanted, failing).0, current[n - 1], current[n - 1] in failing);
    }
  }

  /**
   A refresh, failing or not, keeps every registered key on the device. It never removes a key from the
   device that no registered peer accounts for, either: such a key stays until some peer wants it.
   */
  lemma RefreshSafe(owner: Key -> string, w: WG, wants: seq<Want>, current: seq<string>, failing: set<string>)
    requires Safe(owner, w) && OwnedWants(owner, wants)
    ensures Safe(owner, RefreshStep(w, wants, current, failing).0)
    ensures Orphans(w) - Keys(wants) <= Orphans(RefreshStep(w, wants, current, failing).0)
  {
    AddAllSafe(owner, w, wants, |wants|);
    DropAllSafe(owner, AddAll(w, wants, |wants|).0, current, |current|, Ids(wants), failing);
  }

  // ---------------------------------------------------------------------------------------------
  // What a refresh without errors achieves
  // ---------------------------------------------------------------------------------------------

  predicate DistinctIds(wants: seq<Want>) {
    forall i, j :: 0 <= i < j < |wants| ==> wants[i].id != wants[j].id
  }

  /** The registered peers with the first n wanted ones put over them. */
  function Overwritten(m: Registered, wants: seq<Want>, n: nat): Registered
    requires n <= |wants|
  {
    if n == 0 then m else Overwritten(m, wants, n - 1)[wants[n - 1].id := wants[n - 1].key]
  }

  lemma {:induction false} OverwrittenOther(m: Registered, wants: seq<Want>, n: nat, id: string)
    requires n <= |wants| && forall i :: 0 <= i < n ==> wants[i].id != id
    ensures var m' := Overwritten(m, wants, n);
            (id in m' <==> id in m) && (id in m ==> m'[id] == m[id])
  {
    if n > 0 {
      OverwrittenOther(m, wants, n - 1, id);
    }
  }

  lemma {:induction false} OverwrittenWant(m: Registered, wants: seq<Want>, n: nat, i: nat)
    requires i < n <= |wants| && DistinctIds(wants)
    ensures var m' := Overwritten(m, wants, n);
            wants[i].id in m' && m'[wants[i].id] == wants[i].key
  {
    if i < n - 1 {
      OverwrittenWant(m, wants, n - 1, i);
    }
  }

  lemma OverwrittenAt(m: Registered, wants: seq<Want>)
    requires DistinctIds(wants)
    ensures var m' := Overwritten(m, wants, |wants|);
            && (forall i :: 0 <= i < |wants| ==> wants[i].id in m' && m'[wants[i].id] == wants[i].key)
            && (forall id :: id !in Ids(wants) ==> (id in m' <==> id in m) && (id in m ==> m'[id] == m[id]))
  {
    forall i | 0 <= i < |wants|
      ensures wants[i].id in Overwritten(m, wants, |wants|)
           && Overwritten(m, wants, |wants|)[wants[i].id] == wants[i].key
    {
      OverwrittenWant(m, wants, |wants|, i);
    }
    forall id | id !in Ids(wants)
      ensures var m' := Overwritten(m, wants, |wants|); (id in m' <==> id in m) && (id in m ==> m'[id] == m[id])
    {
      OverwrittenOther(m, wants, |wants|, id);
    }
  }

  lemma NextIsUntouched(m: Registered, wants: seq<Want>, n: nat)
    requires n < |wants| && DistinctIds(wants)
    ensures var id, m' := wants[n].id, Overwritten(m, wants, n);
            id in m' ==> id in m && m'[id] == m[id]
  {
    OverwrittenOther(m, wants, n, wants[n].id);
  }

  lemma AddOne(owner: Key -> string, w: WG, want: Want, extra: set<Key>)
    requires Safe(owner, w) && owner(want.key) == want.id && !AddStep(w, want).1
    requires w.device == Image(w.peers) + extra && (want.id in w.peers ==> w.peers[want.id] !in extra)
    ensures var w' := AddStep(w, want).0;
            w'.peers == w.peers[want.id := want.key] && w'.device == Image(w'.peers) + extra
  {
    if want.id in w.peers && w.peers[want.id] != want.key {
      ImageDelete(owner, w.peers, want.id);
      ImagePut(w.peers - {want.id}, want.id, want.key);
      assert (w.peers - {want.id})[want.id := want.key] == w.peers[want.id := want.key];
    } else {
      ImagePut(w.peers, want.id, want.key);
    }
  }

  /** After n wanted peers without an error: they are registered, and no other key was lost or added. */
  ghost predicate Advanced(owner: Key -> string, w: WG, w1: WG, wants: seq<Want>, n: nat)
    requires n <= |wants|
  {
    Safe(owner, w1) && w1.peers == Overwritten(w.peers, wants, n) && w1.device == Image(w1.peers) + Orphans(w)
  }

  lemma AdvanceStep(owner: Key -> string, w: WG, w1: WG, wants: seq<Want>, n: nat)
    requires OwnedWants(owner, wants) && DistinctIds(wants) && n < |wants|
    requires Advanced(owner, w, w1, wants, n) && !AddStep(w1, wants[n]).1
    ensures Advanced(owner, w, AddStep(w1, wants[n]).0, wants, n + 1)
  {
    NextIsUntouched(w.peers, wants, n);
    var want := wants[n];
    assert want.id in w1.peers ==> w1.peers[want.id] in Image(w.peers);
    AddSafe(owner, w1, want);
    AddOne(owner, w1, want, Orphans(w));
  }

  lemma {:induction false} AddAllExact(owner: Key -> string, w: WG, wants: seq<Want>, n: nat)
    requires Safe(owner, w) && OwnedWants(owner, wants) && DistinctIds(wants)
    requires n <= |wants| && !AddAll(w, wants, n).1
    ensures Advanced(owner, w, AddAll(w, wants, n).0, wants, n)
  {
    if n > 0 {
      AddAllExact(owner, w, wants, n - 1);
      AdvanceStep(owner, w, AddAll(w, wants, n - 1).0, wants, n - 1);
    }
  }

  lemma DropOne(owner: Key -> string, w: WG, id: string, fails: bool, extra: set<Key>)
    requires Safe(owner, w) && !DeleteStep(w, id, fails).1
    requires w.device == Image(w.peers) + extra && (id in w.peers ==> w.peers[id] !in extra)
    ensures var w' := DeleteStep(w, id, fails).0;
            w'.peers == w.peers - {id} && w'.device == Image(w'.peers) + extra
  {
    if id in w.peers {
      ImageDelete(owner, w.peers, id);
    } else {
      assert w.peers - {id} == w.peers;
    }
  }

  function Dropped(current: seq<string>, n: nat, wanted: set<string>): set<string>
    requires n <= |current|
  {
    set i | 0 <= i < n && current[i] !in wanted :: current[i]
  }

  lemma {:induction false} DropAllExact(
    owner: Key -> string, w: WG, current: seq<string>, n: nat, wanted: set<string>, failing: set<string>,
    extra: set<Key>)
    requires Safe(owner, w) && n <= |current| && !DropAll(w, current, n, wanted, failing).1
    requires w.device == Image(w.peers) + extra
    requires forall i :: 0 <= i < n && current[i] !in wanted && current[i] in w.peers ==> w.peers[current[i]] !in extra
    ensures var w' := DropAll(w, current, n, wanted, failing).0;
            w'.peers == w.peers - Dropped(current, n, wanted) && w'.device == Image(w'.peers) + extra
  {
    if n > 0 {
      var id := current[n - 1];
      DropAllExact(owner, w, current, n - 1, wanted, failing, extra);
      DropAllSafe(owner, w, current, n - 1, wanted, failing);
      var w1 := DropAll(w, current, n - 1, wanted, failing).0;
      assert Dropped(current, n, wanted) == Dropped(current, n - 1, wanted) + if id in wanted then {} else {id};
      if id !in wanted {
        DropOne(owner, w1, id, id in failing, extra);
      }
    }
  }

  /** Exactly the wanted peers are registered. */
  ghost predicate Matches(m: Registered, wants: seq<Want>) {
    m.Keys == Ids(wants) && forall i :: 0 <= i < |wants| ==> wants[i].id in m && m[wants[i].id] == wants[i].key
  }

  lemma MatchesImage(m: Registered, wants: seq<Want>)
    requires Matches(m, wants)
    ensures Image(m) == Keys(wants)
  {
    forall k | k in Image(m) ensures k in Keys(wants) {
      var id :| id in m && m[id] == k;
      assert id in Ids(wants);
    }
    forall k | k in Keys(wants) ensures k in Image(m) {
      var i :| 0 <= i < |wants| && wants[i].key == k;
      assert wants[i].id in m && m[wants[i].id] == k;
    }
  }

  /**
   After a refresh without errors exactly the wanted peers are registered, key rotations included. The
   device holds their keys, and besides them exactly the keys it had without a registered peer.
   */
  lemma RefreshExact(owner: Key -> string, w: WG, wants: seq<Want>, current: seq<string>, failing: set<string>)
    requires Safe(owner, w) && OwnedWants(owner, wants) && DistinctIds(wants)
    requires SetOf(current) == w.peers.Keys && !RefreshStep(w, wants, current, failing).1
    ensures var w' := RefreshStep(w, wants, current, failing).0;
            Matches(w'.peers, wants) && w'.device == Keys(wants) + Orphans(w)
  {
    AddAllExact(owner, w, wants, |wants|);
    OverwrittenAt(w.peers, wants);
    var w1 := AddAll(w, wants, |wants|).0;
    forall i | 0 <= i < |current| && current[i] !in Ids(wants) && current[i] in w1.peers
      ensures w1.peers[current[i]] !in Orphans(w)
    {
      assert current[i] in SetOf(current);
      assert w.peers[current[i]] in Image(w.peers);
    }
    DropAllExact(owner, w1, current, |current|, Ids(wants), failing, Orphans(w));
    var w' := RefreshStep(w, wants, current, failing).0;
    assert forall id :: id in w.peers ==> id in SetOf(current);
    assert w'.peers.Keys == Ids(wants);
    MatchesImage(w'.peers, wants);
  }

  /** The device then holds the registered keys and no others exactly when every orphan is wanted. */
  lemma RefreshSyncs(owner: Key -> string, w: WG, wants: seq<Want>, current: seq<string>, failing: set<string>)
    requires Safe(owner, w) && OwnedWants(owner, wants) && DistinctIds(wants)
    requires SetOf(current) == w.peers.Keys && !RefreshStep(w, wants, current, failing).1
    ensures var w' := RefreshStep(w, wants, current, failing).0;
            w'.device == Image(w'.peers) <==> Orphans(w) <= Keys(wants)
  {
    RefreshExact(owner, w, wants, current, failing);
    MatchesImage(RefreshStep(w, wants, current, failing).0.peers, wants);
  }

  // ---------------------------------------------------------------------------------------------
  // Runs
  // ---------------------------------------------------------------------------------------------

  datatype Refresh = Refresh(wants: seq<Want>, current: seq<string>, failing: set<string>)

  function RunRefreshes(w: WG, rs: seq<Refresh>): WG {
    if rs == [] then w else
      var before := RunRefreshes(w, rs[..|rs| - 1]);
      var r := rs[|rs| - 1];
      RefreshStep(before, r.wants, r.current, r.failing).0
  }

  /** The refreshes list the IDs that are registered, and none of them reports an error. */
  ghost predicate Faultless(w: WG, rs: seq<Refresh>) {
    rs == [] ||
    (var r := rs[|rs| - 1];
     var before := RunRefreshes(w, rs[..|rs| - 1]);
     && Faultless(w, rs[..|rs| - 1])
     && SetOf(r.current) == before.peers.Keys
     && !RefreshStep(before, r.wants, r.current, r.failing).1)
  }

  /** From a new interface, any run of refreshes without errors ends in step with its last one. */
  lemma {:induction false} RunSyncs(owner: Key -> string, rs: seq<Refresh>)
    requires forall i :: 0 <= i < |rs| ==> OwnedWants(owner, rs[i].wants) && DistinctIds(rs[i].wants)
    requires Faultless(WG(map[], {}), rs)
    ensures var w := RunRefreshes(WG(map[], {}), rs);
            && Safe(owner, w)
            && w.device == Image(w.peers)
            && (rs != [] ==> Matches(w.peers, rs[|rs| - 1].wants))
    decreases |rs|
  {
    if rs != [] {
      var front, r := rs[..|rs| - 1], rs[|rs| - 1];
      RunSyncs(owner, front);
      var before := RunRefreshes(WG(map[], {}), front);
      RefreshSafe(owner, before, r.wants, r.current, r.failing);
      RefreshExact(owner, before, r.wants, r.current, r.failing);
      RefreshSyncs(owner, before, r.wants, r.current, r.failing);
    }
  }

  lemma {:induction false} AddAllLeavesOthers(w: WG, wants: seq<Want>, n: nat, id: string)
    requires n <= |wants| && id in w.peers && id !in IdsTo(wants, n)
    ensures var w' := AddAll(w, wants, n).0; id in w'.peers && w'.peers[id] == w.peers[id]
  {
    if n > 0 {
      assert wants[n - 1].id in IdsTo(wants, n);
      AddAllLeavesOthers(w, wants, n - 1, id);
    }
  }

  lemma {:induction false} DropAllLeaks(
    owner: Key -> string, w: WG, current: seq<string>, n: nat, wanted: set<string>, failing: set<string>, id: string)
    requires Safe(owner, w) && n <= |current| && id in w.peers && id !in wanted && id in failing
    ensures var w' := DropAll(w, current, n, wanted, failing).0;
            if exists i :: 0 <= i < n && current[i] == id then w.peers[id] in Orphans(w')
            else id in w'.peers && w'.peers[id] == w.peers[id]
  {
    if n > 0 {
      var last := current[n - 1];
      DropAllLeaks(owner, w, current, n - 1, wanted, failing, id);
      DropAllSafe(owner, w, current, n - 1, wanted, failing);
      var w1 := DropAll(w, current, n - 1, wanted, failing).0;
      DeleteSafe(owner, w1, last, last in failing);
      if last == id && id in w1.peers {
        ImageDelete(owner, w1.peers, id);
      }
    }
  }

  /** A peer whose removal fails on the device is forgotten all the same: its key becomes an orphan. */
  lemma FailedDropLeaks(
    owner: Key -> string, w: WG, wants: seq<Want>, current: seq<string>, failing: set<string>, id: string)
    requires Safe(owner, w) && OwnedWants(owner, wants)
    requires id in w.peers && id in current && id !in Ids(wants) && id in failing
    ensures w.peers[id] in Orphans(RefreshStep(w, wants, current, failing).0)
  {
    AddAllLeavesOthers(w, wants, |wants|, id);
    AddAllSafe(owner, w, wants, |wants|);
    DropAllLeaks(owner, AddAll(w, wants, |wants|).0, current, |current|, Ids(wants), failing, id);
  }

  /** An orphan outlives every later run, with or without errors, in which no peer wants it. */
  lemma {:induction false} OrphanPersists(owner: Key -> string, w: WG, rs: seq<Refresh>, key: Key)
    requires Safe(owner, w) && key in Orphans(w)
    requires forall i :: 0 <= i < |rs| ==> OwnedWants(owner, rs[i].wants) && key !in Keys(rs[i].wants)
    ensures Safe(owner, RunRefreshes(w, rs)) && key in Orphans(RunRefreshes(w, rs))
    decreases |rs|
  {
    if rs != [] {
      var front, r := rs[..|rs| - 1], rs[|rs| - 1];
      OrphanPersists(owner, w, front, key);
      RefreshSafe(owner, RunRefreshes(w, front), r.wants, r.current, r.failing);
    }
  }

  // ---------------------------------------------------------------------------------------------
  // Keys that move between peers
  // ---------------------------------------------------------------------------------------------

  lemma {:induction false} AddAllPeers(w: WG, wants: seq<Want>, n: nat)
    requires n <= |wants| && !AddAll(w, wants, n).1
    ensures AddAll(w, wants, n).0.peers == Overwritten(w.peers, wants, n)
  {
    if n > 0 {
      AddAllPeers(w, wants, n - 1);
      var m, id := Overwritten(w.peers, wants, n - 1), wants[n - 1].id;
      assert (m - {id})[id := wants[n - 1].key] == m[id := wants[n - 1].key];
    }
  }

  /** No later peer wants the key of the i-th. */
  ghost predicate LastWanting(wants: seq<Want>, i: nat)
    requires i < |wants|
  {
    forall j :: i < j < |wants| ==> wants[j].key != wants[i].key
  }

  /** The key of the i-th stays on the device until a later peer rotates away from it. */
  lemma {:induction false} AddAllKeeps(w: WG, wants: seq<Want>, n: nat, i: nat)
    requires i < n <= |wants| && !AddAll(w, wants, n).1 && DistinctIds(wants) && LastWanting(wants, i)
    ensures wants[i].key in AddAll(w, wants, n).0.device <==>
            forall j :: i < j < n && wants[j].id in w.peers ==> w.peers[wants[j].id] != wants[i].key
  {
    if i < n - 1 {
      AddAllKeeps(w, wants, n - 1, i);
      AddAllPeers(w, wants, n - 1);
      OverwrittenOther(w.peers, wants, n - 1, wants[n - 1].id);
    }
  }

  /** A key stays on the device until a listed, unwanted peer that is registered with it is dropped. */
  lemma {:induction false} DropAllKeeps(
    w: WG, current: seq<string>, n: nat, wanted: set<string>, failing: set<string>, key: Key)
    requires n <= |current| && !DropAll(w, current, n, wanted, failing).1 && Distinct(current)
    ensures forall k :: n <= k < |current| ==>
              var m := DropAll(w, current, n, wanted, failing).0.peers;
              (current[k] in m <==> current[k] in w.peers) && (current[k] in m ==> m[current[k]] == w.peers[current[k]])
    ensures key in DropAll(w, current, n, wanted, failing).0.device <==>
            key in w.device && forall k :: 0 <= k < n && current[k] !in wanted && current[k] in w.peers ==>
                                 w.peers[current[k]] != key
  {
    if n > 0 {
      DropAllKeeps(w, current, n - 1, wanted, failing, key);
    }
  }

  lemma {:induction false} DropAllPeers(w: WG, current: seq<string>, n: nat, wanted: set<string>, failing: set<string>)
    requires n <= |current|
    ensures DropAll(w, current, n, wanted, failing).0.peers == w.peers - Dropped(current, n, wanted)
  {
    if n > 0 {
      DropAllPeers(w, current, n - 1, wanted, failing);
      var id := current[n - 1];
      assert Dropped(current, n, wanted) == Dropped(current, n - 1, wanted) + if id in wanted then {} else {id};
    }
  }

  /** Whoever owned the keys before, a refresh without errors registers exactly the wanted peers. */
  lemma RefreshRegisters(w: WG, wants: seq<Want>, current: seq<string>, failing: set<string>)
    requires DistinctIds(wants) && SetOf(current) == w.peers.Keys && !RefreshStep(w, wants, current, failing).1
    ensures Matches(RefreshStep(w, wants, current, failing).0.peers, wants)
  {
    AddAllPeers(w, wants, |wants|);
    OverwrittenAt(w.peers, wants);
    DropAllPeers(AddAll(w, wants, |wants|).0, current, |current|, Ids(wants), failing);
    forall id | id in w.peers && id !in Ids(wants) ensures id in Dropped(current, |current|, Ids(wants)) {
      assert id in SetOf(current);
      var k :| 0 <= k < |current| && current[k] == id;
    }
    var m := RefreshStep(w, wants, current, failing).0.peers;
    assert forall i :: 0 <= i < |wants| ==> wants[i].id in m by {
      assert forall i :: 0 <= i < |wants| ==> wants[i].id in Ids(wants);
    }
    assert m.Keys == Ids(wants);
  }

  /** Whoever had the key of the i-th before is wanted no later than it, and so has let go of the key. */
  ghost predicate Released(m: Registered, wants: seq<Want>, i: nat)
    requires i < |wants|
  {
    forall id :: id in m && m[id] == wants[i].key ==> exists j :: 0 <= j <= i && wants[j].id == id
  }

  /**
   What becomes of one key, whoever it belonged to. After a refresh without errors the key of a wanted
   peer is on the device exactly when every peer registered with it before is wanted, and none of them
   comes after the last peer that wants the key.
   */
  lemma WantedKeyStays(w: WG, wants: seq<Want>, current: seq<string>, failing: set<string>, i: nat)
    requires DistinctIds(wants) && Distinct(current) && SetOf(current) == w.peers.Keys
    requires !RefreshStep(w, wants, current, failing).1 && i < |wants| && LastWanting(wants, i)
    ensures wants[i].key in RefreshStep(w, wants, current, failing).0.device <==> Released(w.peers, wants, i)
  {
    var n, key := |wants|, wants[i].key;
    var w1 := AddAll(w, wants, n).0;
    AddAllKeeps(w, wants, n, i);
    AddAllPeers(w, wants, n);
    OverwrittenAt(w.peers, wants);
    DropAllKeeps(w1, current, |current|, Ids(wants), failing, key);
    if Released(w.peers, wants, i) {
      forall j | i < j < n && wants[j].id in w.peers ensures w.peers[wants[j].id] != key {}
    } else {
      var id :| id in w.peers && w.peers[id] == key && forall j :: 0 <= j <= i ==> wants[j].id != id;
      if id in Ids(wants) {
        var j :| 0 <= j < n && wants[j].id == id;
      } else {
        assert id in SetOf(current);
        var k :| 0 <= k < |current| && current[k] == id;
        assert current[k] !in Ids(wants) && current[k] in w1.peers && w1.peers[current[k]] == key;
      }
    }
  }

  lemma {:induction false} LastOf(wants: seq<Want>, i: nat) returns (last: nat)
    requires i < |wants|
    ensures last < |wants| && wants[last].key == wants[i].key && LastWanting(wants, last)
    decreases |wants| - i
  {
    if LastWanting(wants, i) {
      last := i;
    } else {
      var j :| i < j < |wants| && wants[j].key == wants[i].key;
      last := LastOf(wants, j);
    }
  }

  /**
   A refresh without errors leaves all wanted keys on the device exactly when every key is released by
   its former peers. This holds with no assumption on who owns a key.
   */
  lemma WantedKeysStay(w: WG, wants: seq<Want>, current: seq<string>, failing: set<string>)
    requires DistinctIds(wants) && Distinct(current) && SetOf(current) == w.peers.Keys
    requires !RefreshStep(w, wants, current, failing).1
    ensures Keys(wants) <= RefreshStep(w, wants, current, failing).0.device <==>
            forall i :: 0 <= i < |wants| && LastWanting(wants, i) ==> Released(w.peers, wants, i)
  {
    var device := RefreshStep(w, wants, current, failing).0.device;
    forall i | 0 <= i < |wants| && LastWanting(wants, i)
      ensures wants[i].key in device <==> Released(w.peers, wants, i)
    {
      WantedKeyStays(w, wants, current, failing, i);
    }
    if forall i :: 0 <= i < |wants| && LastWanting(wants, i) ==> Released(w.peers, wants, i) {
      forall key | key in Keys(wants) ensures key in device {
        var i :| 0 <= i < |wants| && wants[i].key == key;
        var last := LastOf(wants, i);
      }
    } else {
      var i :| 0 <= i < |wants| && LastWanting(wants, i) && !Released(w.peers, wants, i);
      assert wants[i].key in Keys(wants);
    }
  }

  /** A key that moves to another ID is configured for the new one and then removed with the old one. */
  lemma MovedKeyIsLost(key: Key, from: string, to: string)
    requires from != to
    ensures var want := Want(to, key, Faults(false, false, false, false, false));
            RefreshStep(WG(map[from := key], {key}), [want], [from], {}) == (WG(map[to := key], {}), false)
  {
    var want := Want(to, key, Faults(false, false, false, false, false));
    var w, w1 := WG(map[from := key], {key}), WG(map[from := key, to := key], {key});
    assert w.peers[to := key] == w1.peers && w.device + {key} == w1.device;
    assert AddStep(w, want) == (w1, false);
    assert AddAll(w, [want], 1) == (w1, false);
    assert Ids([want]) == {to} by { assert [want][0].id == to; }
    assert w1.peers - {from} == map[to := key] && w1.device - {key} == {};
    assert DropAll(w1, [from], 1, {to}, {}) == DeleteStep(w1, from, false);
  }

  /** When two wanted peers swap keys, rotating the later one removes what was configured for the earlier. */
  lemma SwappedKeyIsLost(w: WG, wants: seq<Want>, current: seq<string>, failing: set<string>, i: nat, j: nat)
    requires DistinctIds(wants) && Distinct(current) && SetOf(current) == w.peers.Keys
    requires !RefreshStep(w, wants, current, failing).1 && i < j < |wants| && LastWanting(wants, i)
    requires wants[i].id in w.peers && wants[j].id in w.peers
    requires w.peers[wants[i].id] == wants[j].key && w.peers[wants[j].id] == wants[i].key
    ensures wants[i].key !in RefreshStep(w, wants, current, failing).0.device
  {
    WantedKeyStays(w, wants, current, failing, i);
    assert wants[j].id in w.peers;
  }
}
