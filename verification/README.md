# A verified model of the webmesh core

This project models the parts of webmesh that decide who may talk to whom, and proves what they promise.
It is written in Dafny 4.11; `dafny verify dfyconfig.toml` checks all of it.

| file | models |
|---|---|
| `MeshRouting.dfy` | the walk that gives each WireGuard peer its allowed IPs |
| `NetworkAcls.dfy`, `AclPriority.dfy`, `Wildcards.dfy` | network ACLs, which rewrite themselves while they are evaluated |
| `AdminPolicy.dfy` | groups and ACLs as bootstrapping and the admin service store them |
| `GraphFilter.dfy` | cutting the mesh graph by ACLs, and the policy that results for the peers |
| `RaftFsm.dfy` | applying the Raft log to storage |
| `Campfire.dfy` | the campfire rendezvous relay |
| `RegistryKeys.dfy`, `GraphStore.dfy` | registries and the mesh graph over a flat key-value store |
| `PeerReconcile.dfy` | reconciling the WireGuard device with the wanted peers |
| `Rbac.dfy` | evaluating rules, and normalising roles and bindings before they are stored |
| `NtpTime.dfy` | the NTP timestamp |
| `KeyValue.dfy`, `MeshData.dfy`, `Wrappers.dfy` | storage semantics, shared records, results and sets |

Go maps are iterated in an unspecified order. Every loop over a map picks its next key arbitrarily, so each
contract holds for all orders. Clock readings, device failures, write failures and permission checks are
parameters. Values in storage are decoded records, which amounts to assuming that decoding inverts encoding.

## What is proved

- **Coverage.** The depth-first search with its shared `visited` map finds exactly the nodes reachable through
  keyed nodes past no direct adjacent, and fails exactly when it meets a node that is missing or whose routes do
  not parse. Splitting a path at its last direct adjacent then shows that a prefix is in some peer's allowed IPs
  exactly when a reachable keyed node contributes it. For each peer on its own, these are the ends of walks that
  enter neither the asking peer nor another of its neighbours.
- **Policy.** Everything a peer carries besides itself is admitted by the ACLs, routes included. The filter
  leaves the asking node's own row uncut, so the policy holds for all that the peers carry exactly when it
  admits each neighbour with a key; a denied neighbour is still made a peer. The first half holds for any groups,
  in terms of the answers the ACLs gave.
- **The ACL cache.** Over any sequence of evaluations, in any iteration order, an ACL that expands its group
  references in place answers as its original would, as long as no group leads to another one. For groups without
  stars that do not list themselves, this is so for all ACLs exactly when neither a member nor the name of a group
  refers to a stored or undecodable group. The admin service vets members but not names, so it can store groups on
  which an ACL errs; but it stores no ACL that refers to a group, so FilterGraph returns the cut that the policy
  wants on every store it reaches from bootstrapping, unless a bootstrapped voter is named like a reference. The
  bootstrap ACL names no CIDRs, so on its own it admits only voters that expose no route.
- **Wildcards.** A pattern is matched as a glob on all strings exactly when it has at most one star and the text on
  the two sides of it cannot overlap.
- **Priorities.** After any correct sort the decision is that of a matching ACL of highest priority, and it is
  the same for all sorts exactly when those ACLs agree. FilterGraph uses the list unsorted, which gives the same
  decision exactly when the first match in the list agrees with them.
- **The Raft log.** A stale entry is skipped but rewinds the counters. Under every delivery without gaps, with
  repeats, restarts and snapshots of any age, the data converges to each entry applied once in order. A replay
  that stops early, or a delivery with a gap, leaves data that belongs to its index exactly under a stated
  condition on the keys written.
- **The relay.** Garbage collection changes no packet that is sent, and each tick drops what is two hours
  old. An offer goes to the latest announcement
  with mirrored credentials in the same hour, and nowhere else. An answer or candidate goes to the last address
  written under its mirrored key in that hour. So within a session candidates go to the other side, and one sent
  before the answer comes back to its sender.
- **Storage.** No registry's listing shows another's records. The graph store refines a directed graph for IDs
  without slashes, outcomes included, and keeps an existing end for each edge. With slashes keys collide, and a
  vertex can be removed exactly when every stored edge that names it has a slash in one of its ends; printing and
  parsing an edge key is the identity exactly without them.
- **Reconciliation.** A refresh without errors registers exactly the wanted peers and leaves exactly their keys
  on the device, besides keys that no registered peer accounted for before, if each key has one owner. A removal
  that fails on the device leaves such a key there until a peer wants it again. When keys move between peers, a wanted key survives exactly
  when its former peers are wanted too and none comes after the last peer that wants it.
- **Access control.** EvalRule agrees with the order-free meaning of a rule on all actions exactly when a
  wildcard resource, if any, comes first. The squashing done before storing keeps the meaning and restores
  agreement. On every store that bootstrapping and the admin service reach, the decision for a caller therefore
  depends on no order in bindings, roles, rules, verbs or resources, and the bootstrapped admin gets no answer but
  yes, save for an error when a binding of theirs names a missing role.
- **NTP time.** Shift and or amount to addition; within each era the stamp is exact to half a unit and strictly
  increasing, and two instants share a stamp exactly when whole eras lie between their measured times. Before 1900
  the measured time wraps and the stamp is not the true one.

Where the code and its documentation disagree, the model follows the code. FilterGraph is documented to filter
by the current ACLs, and to return an empty map when there are none, but it always keeps the asking node's whole
row. Accept is documented to assume a sorted list, but FilterGraph passes it unsorted. Allowed routes are passed
up through the walk but never filled. An ACL list field that is empty matches no action that sets the field. The
bootstrap servers are to be voters through a binding to a group, but a binding covers nobody through a group, so
that binding grants nothing.

## Model

| member | source | states |
|---|---|---|
| `MeshRouting.GetRoutesByNode` | pkg/meshdb/networking/networking.go:205-218 | as a set, exactly the listed routes whose node is the given one |
| `MeshRouting.AppendCidrs` | pkg/net/mesh/peers.go:224-232 | fails iff a CIDR does not parse; otherwise adds exactly the parsed prefixes that are not our own |
| `MeshRouting.AppendRoutes` | pkg/net/mesh/peers.go:218-234 | fails iff some CIDR of some route of the node does not parse; otherwise adds exactly the node's routes minus our own |
| `MeshRouting.RecurseEdges` | pkg/net/mesh/peers.go:177-251 | with the shared visited set: finds only nodes it reaches past no blocked node, exhausts each keyed one, returns exactly what they contribute, no routes, and fails only on a bad node it reaches; terminates since unvisited targets decrease |
| `MeshRouting.WalkedAll` | pkg/net/mesh/peers.go:187-203 | a finished outermost walk has found, besides its start, exactly the nodes the start reaches past no blocked one |
| `MeshRouting.RecursePeers` | pkg/net/mesh/peers.go:127-175 | succeeds iff no node carried by the adjacent is bad, and then returns as a set exactly what the carried nodes contribute |
| `MeshRouting.ChooseEndpoint` | pkg/net/mesh/peers.go:68-80 | the first endpoint that the primary one is a prefix of, else the first, else none |
| `MeshRouting.EndpointPrefers` | pkg/net/mesh/peers.go:68-80 | the choice is one of the endpoints, and starts with the primary one if any of them does |
| `MeshRouting.WireGuardPeersFor` | pkg/net/mesh/peers.go:37-125 | succeeds iff nothing on the way is bad; then one peer for each direct adjacent with a key and no other, each with its own key, addresses, zone, endpoints, chosen endpoint, ICE flag, exact allowed IPs and no allowed routes |
| `MeshRouting.PeersAreKeyedNeighbours` | pkg/net/mesh/peers.go:58-67 | the returned peers are exactly the neighbours whose record has a key that is not zero |
| `MeshRouting.PeerFields` | pkg/net/mesh/peers.go:82-107 | key, addresses, zone and endpoints come from the node's record, the ICE flag from the attribute of the edge |
| `MeshRouting.PeerCarriesExact` | pkg/net/mesh/peers.go:193-203 | for each peer on its own: a prefix is allowed iff it is supplied at the end of a walk from the peer through nodes with a key that enters neither the asking peer nor any of its neighbours; supplied means an address of the node, or a route of it that is none of ours |
| `MeshRouting.SplitAtLastAdjacent` | pkg/net/mesh/peers.go:193-203 | a keyed walk from the asking peer that ends elsewhere ends in a node carried by its last direct adjacent |
| `MeshRouting.CoverageExact` | pkg/net/mesh/peers.go:58-123 | a keyed node is carried by some direct adjacent iff it is reachable through keyed nodes, the asking peer itself only over an edge to itself |
| `MeshRouting.AllowedIPsExact` | pkg/net/mesh/peers.go:58-123 | a prefix is in some returned peer's allowed IPs iff a reachable keyed node contributes it |
| `Wildcards.WildcardIsGlob` | pkg/meshdb/networking/eval.go:222-246 | on one-star patterns the match is globbing exactly on strings at least as long as the fixed text |
| `Wildcards.WildcardOverlap` | pkg/meshdb/networking/eval.go:235-239 | a string on which the two sides of the star overlap is matched though globbing refuses it |
| `Wildcards.OuterStar` | pkg/meshdb/networking/eval.go:227-234 | several stars, one of them at an end: the text without the stars is refused though globbing matches it, as further stars are taken literally |
| `Wildcards.InnerStars` | pkg/meshdb/networking/eval.go:235-239 | several stars, none at an end: the text before the second star is matched alone though globbing refuses it |
| `Wildcards.ManyStars` | pkg/meshdb/networking/eval.go:226-239 | every pattern with several stars is matched otherwise than as a glob on some string |
| `Wildcards.WildcardExact` | pkg/meshdb/networking/eval.go:222-246 | a pattern is matched as a glob on all strings iff it has no star, or one whose two sides cannot overlap |
| `NetworkAcls.CollectGroups` | pkg/meshdb/networking/eval.go:112-134 | the collected members, or failure on the first group that does not decode |
| `NetworkAcls.Replace` | pkg/meshdb/networking/eval.go:257-267 | every occurrence replaced by the members, the rest kept in order |
| `NetworkAcls.ExpandReferences` | pkg/meshdb/networking/eval.go:112-144 | the list after replacing the collected groups one by one in some iteration order |
| `NetworkAcls.NodesStepMeaning` | pkg/meshdb/networking/eval.go:109-149 | on a flat list, in any iteration order, the answer is that of one level of expansion, and the rewritten list means the same |
| `NetworkAcls.MatchesStepMeaning` | pkg/meshdb/networking/eval.go:108-220 | on a flat ACL one call answers by its meaning and leaves an ACL of the same meaning |
| `NetworkAcls.MatchesMeans` | pkg/meshdb/networking/eval.go:108-220 | on a flat ACL with patterns matched as globs: a call says yes iff each field the action sets is globbed by the list for that field, nodes also through the node and all-type subjects of a group named after "group:", the port is listed, and no group in question fails to decode |
| `NetworkAcls.CacheTransparent` | pkg/meshdb/networking/eval.go:108-190 | on an ACL whose groups are flat: over any run of calls in any iteration orders, each answer is that of the original ACL |
| `NetworkAcls.NestedGroupsDrift` | pkg/meshdb/networking/eval.go:108-149 | an input on which the same action is refused by the first call and accepted by the second |
| `NetworkAcls.NestedDrifts` | pkg/meshdb/networking/eval.go:108-149 | any member of a group that refers to a stored or undecodable group gives an ACL and an action that it first accepts and then refuses |
| `NetworkAcls.NamedLikeReferenceDrifts` | pkg/meshdb/networking/eval.go:113-118 | any group named like a reference to a stored or undecodable group gives an ACL and an action that it accepts though it does not mean to |
| `NetworkAcls.TransparentExact` | pkg/meshdb/networking/eval.go:108-190 | on groups without stars that do not list themselves: all ACLs answer as their originals over all runs iff neither a member nor the name of a group refers to a stored or undecodable group |
| `AdminPolicy.PolicyStore.PutGroup` | pkg/services/admin/admin_put_group.go:38-73 | succeeds iff the request and its subjects up to the first everyone are valid; every node member stored is a valid ID or stands for everyone; the name is not checked |
| `AdminPolicy.VettedIsTransparent` | pkg/services/admin/admin_put_group.go:54-67 | with members so stored, and no group named like a reference to a stored or undecodable one, every node list is flat and every ACL answers as its original over all runs |
| `AdminPolicy.VettedExact` | pkg/services/admin/admin_put_group.go:42-67 | without stars, exactly then |
| `AdminPolicy.NamedLikeReference` | pkg/services/admin/admin_put_group.go:42-44 | two groups that PutGroup accepts, one named like the reference to the other, and an ACL that refuses a node it means to accept |
| `AdminPolicy.PolicyStore.constructor` | pkg/mesh/mesh_bootstrap.go:193-268 | the voters group and the bootstrap ACLs |
| `AdminPolicy.PolicyStore.DeleteGroup` | pkg/meshdb/rbac/rbac.go:318-328 | the voters group is refused; otherwise only that group goes |
| `AdminPolicy.PolicyStore.PutNetworkACL` | pkg/services/admin/admin_put_network_acl.go:41-85 | succeeds iff the request is complete and all its CIDRs parse and all its nodes are valid IDs, so that no reference is stored; then replaces the ACL of that name |
| `AdminPolicy.PolicyStore.DeleteNetworkACL` | pkg/meshdb/networking/networking.go:142-152 | the bootstrap ACL is refused; otherwise only that ACL goes |
| `AdminPolicy.PolicyStore.ListNetworkACLs` | pkg/meshdb/networking/networking.go:155-170 | the stored ACLs, as many as there are |
| `AdminPolicy.StoredIsFlat` | pkg/services/admin/admin_put_network_acl.go:72-79 | every list of stored ACLs is flat unless a bootstrapped voter is named like a reference |
| `AdminPolicy.PolicyStore.FilterStored` | pkg/meshdb/networking/networking.go:270-364 | so on every store these operations reach, unless a bootstrapped voter is named like a reference, FilterGraph returns exactly the cut that the policy wants |
| `AdminPolicy.DefaultAdmitsAll` | pkg/mesh/mesh_bootstrap.go:255-268 | bootstrapped with the accepting default, the policy admits every node with all its routes |
| `AdminPolicy.BootstrapAdmitsVoters` | pkg/mesh/mesh_bootstrap.go:242-248 | bootstrapped without it, the policy admits a node iff both are voters and the node exposes no route |
| `MeshData.ValidIDExact` | pkg/meshdb/peers/peers.go:52-72 | which IDs are valid, character by character |
| `NetworkAcls.ACLs.Matches` | pkg/meshdb/networking/eval.go:108-220 | on any groups: answer and rewriting in place, exactly, for some iteration orders; no other member changes |
| `NetworkAcls.ACLs.Accept` | pkg/meshdb/networking/eval.go:94-104 | on any groups: the evaluation is appended to the log of a chain in which each starts from the list the one before left behind |
| `NetworkAcls.ACLs.Decide` | pkg/meshdb/networking/eval.go:94-104 | on any groups: members are tried in order, rewriting themselves, up to the first yes, which decides |
| `NetworkAcls.HonestAnswers` | pkg/meshdb/networking/eval.go:94-104 | over any sequence of evaluations of a flat list every answer is the pure one on the original list |
| `NetworkAcls.DecidedMeaning` | pkg/meshdb/networking/eval.go:94-104 | however earlier calls rewrote the list, the decision is the pure one on the original list, and what the scan leaves behind is again a form of it |
| `NetworkAcls.AcceptAt` | pkg/meshdb/networking/eval.go:98-103 | the first match decides, no match denies |
| `AclPriority.PriorityDecides` | pkg/meshdb/networking/eval.go:75-104 | after any correct sort the decision is that of some matching ACL of maximal priority, or deny when none matches |
| `AclPriority.DecisionUnique` | pkg/meshdb/networking/eval.go:80-104 | all outcomes of the sort decide alike iff the matching ACLs of maximal priority agree |
| `AclPriority.ListedOrderDecides` | pkg/meshdb/networking/networking.go:273-276 | used unsorted, a list decides as every outcome of the sort iff its first match says the same as all matching ACLs of maximal priority |
| `AclPriority.ListedOrderMisleads` | pkg/meshdb/networking/networking.go:273-276 | a list of two on which it does not |
| `GraphFilter.Admits` | pkg/meshdb/networking/networking.go:292-318 | on any groups: a yes means that the ACLs said yes to the node and to every CIDR of every route it exposes, a no that they said no to one of them |
| `GraphFilter.FillRow` | pkg/meshdb/networking/networking.go:326-360 | on any groups: the row gains exactly the edges to the asking node and to peers the ACLs said yes to |
| `GraphFilter.FilterGraph` | pkg/meshdb/networking/networking.go:270-364 | on any groups the answers given justify every node and edge kept or dropped; on flat ACLs the cut is exactly the one the policy wants; the own row is the full map's row itself, every other row is new, and the full map keeps its contents |
| `GraphFilter.FilteredPeersFor` | pkg/net/mesh/peers.go:37-125 | filtering and walking together return exactly the peers of that cut |
| `GraphFilter.CutIsFiltered` | pkg/meshdb/networking/networking.go:283-361 | on flat ACLs a cut justified by the answers given is the one the policy wants |
| `GraphFilter.FilteredExact` | pkg/meshdb/networking/networking.go:283-361 | node by node and edge by edge what the policy keeps |
| `GraphFilter.PolicyDirection` | pkg/meshdb/networking/networking.go:292-318 | with one accepting ACL from the asking node to another, that one is kept iff the destination CIDRs cover all routes it exposes; with the ACL reversed it is dropped |
| `GraphFilter.CarriedPasses` | pkg/meshdb/networking/networking.go:321-361 | on any groups: the ACLs said yes to every node a peer carries besides itself, and to each CIDR it exposes |
| `GraphFilter.CarriedAdmitted` | pkg/meshdb/networking/networking.go:321-361 | any node that a peer carries besides itself is accepted directly and for each of its routes' CIDRs |
| `GraphFilter.PolicyExact` | pkg/meshdb/networking/networking.go:283-361 | everything carried is admitted iff each neighbour with a key is |
| `GraphFilter.DeniedNeighbourIsPeer` | pkg/meshdb/networking/networking.go:284 | with no ACLs nothing is admitted, yet a keyed neighbour becomes a peer |
| `KeyValue.List` | pkg/storage/badger.go:128-143 | every key under the prefix, once |
| `RaftFsm.RaftNode.ApplyCommand` | pkg/meshdb/raftlogs/apply.go:34-66 | PUT and DELETE on storage, refused for an empty key; other types are errors |
| `RaftFsm.RaftNode.ApplyLog` | pkg/raft/fsm.go:67-131 | skips stale entries, stores index and term on every path |
| `RaftFsm.RaftNode.ApplyBatch` | pkg/raft/fsm.go:49-58 | state and responses of the entries one after the other |
| `RaftFsm.RaftNode.Restore` | pkg/raft/fsm.go:41-46 | data replaced, counters untouched |
| `RaftFsm.BatchingIsInvisible` | pkg/raft/fsm.go:49-65 | any division into batches gives the state and responses of applying one by one |
| `RaftFsm.StaleIffBehind` | pkg/raft/fsm.go:78-94 | on a committed log an entry is skipped iff it lies behind the counters |
| `RaftFsm.StepAt` | pkg/raft/fsm.go:74-94 | on any node and entry: no key changes if the term is older or the index not newer, otherwise the entry's own write takes effect; index and term are stored either way |
| `RaftFsm.ReplyExact` | pkg/raft/fsm.go:84-130 | an error is answered iff the entry is not skipped and does not decode, has an unknown type or an empty key |
| `RaftFsm.Backtrack` | pkg/meshdb/raftlogs/apply.go:38-60 | re-applying entries from an earlier point leads to the same data, since the last write wins |
| `RaftFsm.Converges` | pkg/raft/fsm.go:67-131 | over any run of gapless deliveries, restored snapshots of any age and restarts, caught-up data is each entry applied once in order |
| `RaftFsm.ReplayConverges` | pkg/raft/fsm.go:74-94 | after n entries, redelivering any k up to n leaves data, index and term |
| `RaftFsm.SnapshotOverlap` | pkg/raft/fsm.go:41-46 | restoring the state at m on any recoverable node and delivering j up to n with j at most m gives index and term of n entries, and their data unless the snapshot is older than the counters and j is m; then iff each key that entry m changes is written again |
| `RaftFsm.PartialReplay` | pkg/raft/fsm.go:74-94 | a replay stopped at m leaves the data of m entries iff each key on which m and n differ is written again |
| `RaftFsm.GapExact` | pkg/raft/fsm.go:89-94 | after a gap the counters say n, and the data is that of n entries iff each key the gap changes is written again |
| `RaftFsm.SkippedExact` | pkg/meshdb/raftlogs/apply.go:38-60 | leaving out entries does no harm to the data iff each key they change is written again |
| `Campfire.CampFireManager.HandleMessage` | pkg/services/turn/campfire.go:102-145 | invalid messages change nothing; others are handled by type |
| `Campfire.CampFireManager.HandleAnnounce` | pkg/services/turn/campfire.go:147-156 | the source is stored under the credentials and hour, without an id |
| `Campfire.CampFireManager.HandleOffer` | pkg/services/turn/campfire.go:158-189 | stores the offerer, relays to the mirrored announcement, and after a successful write stores the offerer under the mirrored key |
| `Campfire.CampFireManager.HandleRelay` | pkg/services/turn/campfire.go:191-251 | stores the sender and relays to the mirrored key with the same id |
| `Campfire.CampFireManager.CollectPeers` | pkg/services/turn/campfire.go:253-272 | drops exactly the entries whose expiry lies before the current hour |
| `Campfire.CollectedExact` | pkg/services/turn/campfire.go:262-268 | a tick anywhere in a run drops exactly the entries that expire before the hour of the tick, in seconds, and keeps the address of all others |
| `Campfire.NothingStays` | pkg/services/turn/campfire.go:253-279 | no entry outlives a tick two hours or more after it was written |
| `Campfire.ValidExact` | pkg/services/turn/campfire.go:78-100 | a message is valid iff its type is known, all credentials are set, and the id too unless it announces |
| `Campfire.GCTransparent` | pkg/services/turn/campfire.go:158-279 | with a clock that never goes back, collector ticks anywhere change no packet and no address |
| `Campfire.IdlessIsLatest` | pkg/services/turn/campfire.go:147-189 | an entry without id that a lookup can find is that of the latest announcement under its key |
| `Campfire.OfferGoesToLatestAnnounce` | pkg/services/turn/campfire.go:158-185 | in every run an offer goes to the latest mirrored announcement of the same hour, and nowhere if there is none |
| `Campfire.SoughtAnnouncement` | pkg/services/turn/campfire.go:147-179 | the announcement sought is a valid one with the credentials exchanged and from the same hour, in seconds |
| `Campfire.RelayGoesToLastWriter` | pkg/services/turn/campfire.go:191-251 | in every run an answer or candidate goes to the source of the last event that wrote under its mirrored key in that hour, and nowhere if there is none |
| `Campfire.SoughtWrite` | pkg/services/turn/campfire.go:191-251 | the write sought is by a valid message with the same id, credentials exchanged and from the same hour, or by a relayed offer with the same id and credentials |
| `Campfire.EchoExact` | pkg/services/turn/campfire.go:191-251 | it comes back to its sender iff that source is the sender |
| `Campfire.SessionRelays` | pkg/services/turn/campfire.go:158-251 | after offer and answer in one hour, while only their senders write under the two keys, the answer and every candidate go to the other side |
| `Campfire.EarlyCandidateEchoes` | pkg/services/turn/campfire.go:186-188 | a candidate the offerer sends after a relayed offer comes back to it while nobody else wrote under the mirrored key |
| `RegistryKeys.PrefixesApart` | pkg/meshdb/rbac/rbac.go:42-44 | no key of one registry lies under the prefix of another |
| `RegistryKeys.KeysApart` | pkg/meshdb/networking/networking.go:38-40 | printed keys are equal iff registry and name are |
| `RegistryKeys.RegistriesDoNotInterfere` | pkg/storage/badger.go:86-125 | after any puts and deletes to all registries each one holds what its own operations put there |
| `RegistryKeys.ListedNames` | pkg/storage/badger.go:128-165 | listing by the bare prefix and trimming gives exactly the registry's names |
| `RegistryKeys.ParseEdgeKey` | pkg/meshdb/peers/graph.go:117-123 | parsing a printed edge key gives back the two IDs iff neither has a slash, and nothing otherwise |
| `RegistryKeys.SlashesCollide` | pkg/meshdb/peers/graph.go:199 | with slashes two different edges share a key |
| `RegistryKeys.EdgeKeyUnique` | pkg/meshdb/peers/graph.go:199 | an edge shares its key with no other iff its ends have no slashes |
| `RegistryKeys.RecordKeys` | pkg/meshdb/peers/graph.go:37-44 | the keys of nodes and edges as documented |
| `GraphStore.Store.AddVertex` | pkg/meshdb/peers/graph.go:59-72 | the storage and outcome, an empty ID refused |
| `GraphStore.Store.Vertex` | pkg/meshdb/peers/graph.go:76-94 | the stored node, or the error for an empty ID, a missing or an undecodable record |
| `GraphStore.Store.RemoveVertex` | pkg/meshdb/peers/graph.go:99-131 | refused iff empty, absent or named by a parsed edge key; otherwise only the node's key goes |
| `GraphStore.Store.ListVertices` | pkg/meshdb/peers/graph.go:134-144 | the trimmed keys under the nodes prefix |
| `GraphStore.Store.AddEdge` | pkg/meshdb/peers/graph.go:160-214 | refused iff neither end exists or the edge does; otherwise only the edge's key is written |
| `GraphStore.Store.UpdateEdge` | pkg/meshdb/peers/graph.go:218-241 | refused iff the edge's key is absent |
| `GraphStore.Store.RemoveEdge` | pkg/meshdb/peers/graph.go:249-260 | removes the key, never an error |
| `GraphStore.Store.Edge` | pkg/meshdb/peers/graph.go:270-292 | the record under the key, with source and target from the arguments |
| `GraphStore.Store.ListEdges` | pkg/meshdb/peers/graph.go:295-314 | fails iff a record does not decode; otherwise exactly the edges named by the values |
| `GraphStore.QueriesAgree` | pkg/meshdb/peers/graph.go:111-197 | the existence loops over keys answer as the graph does |
| `GraphStore.StepRefines` | pkg/meshdb/peers/graph.go:59-260 | each operation on storage is the operation on the graph, with the same outcome |
| `GraphStore.StoreRefinesGraph` | pkg/meshdb/peers/graph.go:59-260 | over any run storage and outcomes agree with the graph, each edge keeps an existing end, each record says what its key says |
| `GraphStore.EdgeReadsAgree` | pkg/meshdb/peers/graph.go:270-314 | reading an edge by key and listing edges by value agree |
| `GraphStore.VertexReadsAgree` | pkg/meshdb/peers/graph.go:76-144 | reading a vertex and listing the vertices give what the graph holds |
| `GraphStore.ValidIDsHaveNoSlashes` | pkg/meshdb/peers/peers.go:52-72 | valid IDs meet what the refinement asks of them |
| `GraphStore.RemovalGuardExact` | pkg/meshdb/peers/graph.go:111-126 | after any operations on any IDs, a vertex counts as having edges iff some stored edge without slashes in its ends names it |
| `GraphStore.SlashedVertexLeavesEdges` | pkg/meshdb/peers/graph.go:116-130 | a vertex with one edge is refused iff neither end has a slash, and removed from under the edge otherwise |
| `GraphStore.StoredVerticesAreIndexed` | pkg/meshdb/peers/peers.go:50 | vertices are stored under their own ID, which the routing walk relies on |
| `PeerReconcile.WGInterface.Peers` | pkg/net/wireguard/wireguard.go:208-216 | each registered ID once |
| `PeerReconcile.WGInterface.DeletePeer` | pkg/net/wireguard/wireguard_peers.go:172-205 | forgets the ID first, then removes its key unless the device fails |
| `PeerReconcile.WGInterface.PutPeer` | pkg/net/wireguard/wireguard_peers.go:58-169 | removes another key of the ID first, then configures and registers the new one unless a step fails |
| `PeerReconcile.AddFails` | pkg/net/wireguard/wireguard_peers.go:58-169 | an error iff some step failed; unless only the routes failed nothing is registered or configured, and a rotated peer is gone |
| `PeerReconcile.RefreshPeers` | pkg/net/manager.go:393-458 | all wanted peers added, then those listed before and not wanted dropped; an error iff one of the steps failed |
| `PeerReconcile.RefreshSafe` | pkg/net/manager.go:410-453 | failing or not, every registered key stays on the device under its owner, and a key on the device that no registered peer has stays so unless it is wanted |
| `PeerReconcile.RefreshExact` | pkg/net/manager.go:410-457 | without errors exactly the wanted IDs are registered under the wanted keys, and the device holds those keys and exactly the orphans it had |
| `PeerReconcile.RefreshSyncs` | pkg/net/manager.go:410-457 | the device then holds the registered keys only iff every orphan is wanted |
| `PeerReconcile.RefreshRegisters` | pkg/net/manager.go:410-457 | without errors exactly the wanted peers are registered, whoever owned the keys before |
| `PeerReconcile.WantedKeyStays` | pkg/net/wireguard/wireguard_peers.go:58-69 | without errors, whoever owned the keys before: a wanted key is on the device iff all peers registered with it before are wanted no later than the last peer that wants it |
| `PeerReconcile.WantedKeysStay` | pkg/net/manager.go:410-457 | all wanted keys are on the device iff that holds for each of them |
| `PeerReconcile.RunSyncs` | pkg/net/manager.go:393-458 | any run without errors from a new interface ends with device and registration equal to the last wanted peers |
| `PeerReconcile.FailedDropLeaks` | pkg/net/wireguard/wireguard_peers.go:172-185 | a peer whose removal fails on the device leaves its key there unregistered |
| `PeerReconcile.OrphanPersists` | pkg/net/manager.go:439-453 | such a key outlives every later run in which no peer wants it |
| `PeerReconcile.MovedKeyIsLost` | pkg/net/manager.go:439-453 | a key that moves to another ID ends up registered but not on the device |
| `PeerReconcile.SwappedKeyIsLost` | pkg/net/wireguard/wireguard_peers.go:62-69 | when two wanted peers swap keys, the key of the earlier one is lost |
| `Rbac.EvalRule` | pkg/meshdb/rbac/eval.go:49-83 | verbs, first matching resource and names, as the three loops find them; a yes needs the verb and the resource listed, or their wildcards |
| `Rbac.EvalSound` | pkg/meshdb/rbac/eval.go:49-83 | evaluation never allows what the rule does not mean |
| `Rbac.EvalExact` | pkg/meshdb/rbac/eval.go:60-76 | evaluation is the order-free meaning on all actions iff the wildcard resource, if any, comes first |
| `Rbac.SquashMeaning` | pkg/services/admin/admin_put_role.go:58-85 | squashing keeps the meaning, makes evaluation agree with it, and denies nothing that was allowed |
| `Rbac.SquashRules` | pkg/services/admin/admin_put_role.go:58-85 | succeeds iff all rules are acceptable, and then each has been overwritten by its squashed form |
| `Rbac.RbacStore.PutRole` | pkg/services/admin/admin_put_role.go:38-91 | stores exactly the squashed rules, or nothing; all stored rules stay normal |
| `Rbac.NormalEval` | pkg/meshdb/rbac/eval.go:49-83 | on every rule so stored evaluation is the order-free meaning |
| `Rbac.RbacStore.ListRoles` | pkg/meshdb/rbac/rbac.go:346-393 | for some listing order: the roles of the bindings that cover the caller, or the first missing role |
| `Rbac.RbacStore.PutRoleBinding` | pkg/services/admin/admin_put_role_binding.go:39-79 | succeeds iff the request and its subjects up to the first everyone are valid; then replaces the binding of that name by one that covers the same callers |
| `Rbac.RbacStore.constructor` | pkg/mesh/mesh_bootstrap.go:146-233 | of what bootstrapping stores, the two system roles and bindings; all rules are normal |
| `Rbac.BootstrapGrants` | pkg/mesh/mesh_bootstrap.go:222-231 | on that store an action is granted iff the peer is the admin, or the admin is the wildcard: the binding to the voters group grants nothing |
| `Rbac.RbacStore.DeleteRole` | pkg/meshdb/rbac/rbac.go:173-183 | system roles are refused; otherwise only that role goes |
| `Rbac.RbacStore.DeleteRoleBinding` | pkg/meshdb/rbac/rbac.go:252-262 | system bindings are refused; otherwise only that binding goes |
| `Rbac.RbacStore.ListRoleBindings` | pkg/meshdb/rbac/rbac.go:265-277 | each stored binding once, in any order |
| `Rbac.RbacStore.Evaluate` | pkg/services/rbac/rbac.go:78-106 | on every store these operations reach: an error iff there is no peer name or a binding of the peer names a missing role; otherwise yes iff each action is granted to the node or the user of that name, which for the bootstrapped admin it always is |
| `Rbac.GrantedExact` | pkg/services/rbac/rbac.go:91-105 | granted iff a binding names the peer or everyone as node, user or either, and a rule of its role lists verb, resource and name, or the wildcards |
| `Rbac.BindsExact` | pkg/meshdb/rbac/rbac.go:346-393 | whom a binding covers, by type and name of its subjects |
| `Rbac.SystemNames` | pkg/meshdb/rbac/rbac.go:30-55 | the names of the system roles and bindings |
| `Rbac.AcceptableExact` | pkg/services/admin/admin_put_role.go:58-85 | a rule is accepted iff it has verbs and resources and nothing unrecognized comes before the first wildcard |
| `Rbac.SubjectsExact` | pkg/services/admin/admin_put_role_binding.go:62-73 | subjects are accepted iff none that is unrecognized or invalidly named comes before the first everyone |
| `Rbac.SquashKeepsCallers` | pkg/services/admin/admin_put_role_binding.go:62-73 | a squashed binding covers exactly the callers it covered |
| `Rbac.SquashKeepsRoles` | pkg/meshdb/rbac/rbac.go:346-393 | whichever bindings are squashed, each node and user has the same roles or the same error |
| `Rbac.RolesOfMembers` | pkg/meshdb/rbac/rbac.go:346-393 | listing fails iff a covering binding names no stored role, and otherwise gives exactly the roles of covering bindings |
| `Rbac.AccessDecision` | pkg/meshdb/rbac/eval.go:26-46 | with rules as stored, a caller may act iff a binding covers it and a rule of its role grants the action, whatever the order of bindings, rules, verbs and resources |
| `Rbac.StoreDecision` | pkg/meshdb/rbac/rbac.go:346-393 | the same for the bindings of a store in whatever order they are listed |
| `NtpTime.FractionFits` | pkg/util/netutil.go:138-142 | the rounded fraction stays below 2^32 |
| `NtpTime.OrAdds` | pkg/util/netutil.go:143 | or-ing a number below 2^k into a multiple of 2^k adds it |
| `NtpTime.StampIs` | pkg/util/netutil.go:135-144 | for every instant the stamp is the measured seconds modulo 2^32 above the rounded fraction |
| `NtpTime.StampAccurate` | pkg/util/netutil.go:135-144 | for every instant the stamp is within half a unit of the measured time since its era began |
| `NtpTime.TrueTimeExact` | pkg/util/netutil.go:135-144 | of the instants a duration can hold, the stamp is within half a unit of the true time since the era began iff they are not before 1900 |
| `NtpTime.StampIncreases` | pkg/util/netutil.go:135-144 | within one era, before or after 1900, later nanoseconds have greater stamps |
| `NtpTime.StampCollides` | pkg/util/netutil.go:135-144 | two instants share a stamp iff their measured times are a whole number of eras apart |
| `NtpTime.StampSaturates` | pkg/util/netutil.go:136 | past either end of a 64-bit duration all instants share one stamp |
| `NtpTime.WholeSeconds` | pkg/util/netutil.go:135-144 | in plain numbers: whole and half seconds of the first era |

## Left out

- GraphFilter.FilterGraph: the rows of other nodes are filled one by one and allocated at the end, not in the first loop; nothing else can see them in between.
- NetworkAcls.TransparentExact: groups that list themselves, and stars in members or in names like references, are outside the equivalence; stars can hide a difference, and a group that lists itself can keep what it expands to.
- Rbac.RbacStore.constructor: the voters group that bootstrapping also stores is in AdminPolicy.PolicyStore.constructor.
- AdminPolicy.PolicyStore.PutNetworkACL: leader and permission checks and the prefixes that parse are inputs, and the write to storage is taken to succeed.
- AdminPolicy.PolicyStore.PutGroup: leader and permission checks are inputs, and the write to storage is taken to succeed.
- RaftFsm.RaftNode.ApplyLog: does not model expiry times of entries, the apply timeout, or the callback started for each applied command.
- MeshRouting.WireGuardPeersFor: does not model the textual form of keys and prefixes, and allowed IPs are described as sets.
- PeerReconcile.RefreshPeers: endpoints, ICE negotiation, pings and routes appear only as steps that may fail; nothing happens before the interface is started.
- Rbac.RbacStore.PutRoleBinding: leader and permission checks are inputs, and the write to storage is taken to succeed.
- NetworkAcls.ACLs.Matches: an ACL is a member of one list; two list entries that share one ACL object are not modelled.
- Rbac.RbacStore.PutRole: leader and permission checks are inputs, and the write to storage is taken to succeed.
- Storage errors other than a missing or undecodable record, and the order in which keys are listed.
- The Raft consensus protocol itself, which supplies a committed log and lies outside the repository.
- The graph library that builds adjacency maps: any finite adjacency map is allowed as input.
- The key-value engine, its expiry, subscriptions and snapshot encoding.
- Protobuf, JSON, snappy and gzip encodings.
- WebRTC, ICE, STUN, UDP and gRPC plumbing, the campfire clients, MeshDNS, plugins, command line and dashboard.
- Join, update and bootstrap flows, which mostly sequence effects on other systems.
- Address allocation, whose source is not part of the repository.
- Deleting nodes together with their edges, and listing nodes by zone or feature.
