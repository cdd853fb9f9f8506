/**
 The campfire rendezvous relay of the TURN server (pkg/services/turn/campfire.go).

 A packet is relayed by looking up a key made of an id, mirrored credentials and the hour in which the
 lookup happens. Clock readings are parameters: a handler that computes two keys reads the clock twice.
 */
module Campfire {
  import opened Wrappers

  datatype MessageType = UNKNOWN | ANNOUNCE | OFFER | ANSWER | CANDIDATE | Unrecognized(n: int)

  /** A decoded packet; `body` stands for the part that the relay only forwards. */
  datatype Message = Message(
    kind: MessageType, id: string, lufrag: string, lpwd: string, rufrag: string, rpwd: string, body: string)

  type Addr = string

  /** The key of the peers map. */
  datatype Peer = Peer(id: string, ufrag: string, pwd: string, acceptUfrag: string, acceptPwd: string, expires: int)

  type Peers = map<Peer, Addr>

  datatype Invalid = MissingId | MissingLufrag | MissingLpwd | MissingRufrag | MissingRpwd | InvalidType | UnknownType

  /** ValidateCampfireMessage. */
  function Validate(msg: Message): Option<Invalid> {
    if msg.id == "" && msg.kind != ANNOUNCE then Some(MissingId)
    else if msg.lufrag == "" then Some(MissingLufrag)
    else if msg.lpwd == "" then Some(MissingLpwd)
    else if msg.rufrag == "" then Some(MissingRufrag)
    else if msg.rpwd == "" then Some(MissingRpwd)
    else if msg.kind.Unrecognized? then Some(InvalidType)
    else if msg.kind == UNKNOWN then Some(UnknownType)
    else None
  }

  const HOUR := 3600

  /** Truncate(time.Hour), in Unix seconds. */
  function Truncate(t: int): int {
    t / HOUR * HOUR
  }

  function NextExpiry(t: int): int {
    Truncate(t) + HOUR
  }

  /** The key of the sender, and the mirrored key of the one it wants to reach. */
  function Local(msg: Message, id: string, expires: int): Peer {
    Peer(id, msg.lufrag, msg.lpwd, msg.rufrag, msg.rpwd, expires)
  }

  function Remote(msg: Message, id: string, expires: int): Peer {
    Peer(id, msg.rufrag, msg.rpwd, msg.lufrag, msg.lpwd, expires)
  }

  function Mirror(p: Peer): Peer {
    Peer(p.id, p.acceptUfrag, p.acceptPwd, p.ufrag, p.pwd, p.expires)
  }

  /**
   A packet read from the socket, with the two clock readings its handler makes and whether writing a
   packet out succeeds; or a tick of the garbage collector.
   */
  datatype Event = Receive(msg: Message, src: Addr, t1: int, t2: int, writeOk: bool) | GC(t: int)

  /** A packet handed to the socket. */
  datatype Send = Send(msg: Message, to: Addr)

  // ---------------------------------------------------------------------------------------------
  // One event
  // ---------------------------------------------------------------------------------------------

  function Collect(peers: Peers, t: int): Peers {
    map p | p in peers && p.expires >= Truncate(t) :: peers[p]
  }

  function OfferStep(peers: Peers, ev: Event): (Peers, seq<Send>)
    requires ev.Receive?
  {
    var peers1 := peers[Local(ev.msg, ev.msg.id, NextExpiry(ev.t1)) := ev.src];
    var remote := Remote(ev.msg, "", NextExpiry(ev.t2));
    if remote !in peers1 then (peers1, [])
    else if !ev.writeOk then (peers1, [Send(ev.msg, peers1[remote])])
    else (peers1[remote.(id := ev.msg.id) := ev.src], [Send(ev.msg, peers1[remote])])
  }

  /** handleAnswer and handleICE, which differ only in what they log. */
  function RelayStep(peers: Peers, ev: Event): (Peers, seq<Send>)
    requires ev.Receive?
  {
    var peers1 := peers[Local(ev.msg, ev.msg.id, NextExpiry(ev.t1)) := ev.src];
    var remote := Remote(ev.msg, ev.msg.id, NextExpiry(ev.t2));
    (peers1, if remote in peers1 then [Send(ev.msg, peers1[remote])] else [])
  }

  function Handle(peers: Peers, ev: Event): (Peers, seq<Send>) {
    match ev
    case GC(t) => (Collect(peers, t), [])
    case Receive(msg, src, t1, _, _) =>
      if Validate(msg).Some? then (peers, [])
      else match msg.kind
           case ANNOUNCE => (peers[Local(msg, "", NextExpiry(t1)) := src], [])
           case OFFER => OfferStep(peers, ev)
           case ANSWER => RelayStep(peers, ev)
           case CANDIDATE => RelayStep(peers, ev)
           case _ => (peers, [])
  }

  function After(peers: Peers, evs: seq<Event>): Peers {
    if evs == [] then peers else Handle(After(peers, evs[..|evs| - 1]), evs[|evs| - 1]).0
  }

  /** Everything sent during a run, in order. */
  function Sent(peers: Peers, evs: seq<Event>): seq<Send> {
    if evs == [] then [] else
      var front := evs[..|evs| - 1];
      Sent(peers, front) + Handle(After(peers, front), evs[|evs| - 1]).1
  }

  // ---------------------------------------------------------------------------------------------
  // The manager
  // ---------------------------------------------------------------------------------------------

  class CampFireManager {
    var peers: Peers

    constructor ()
      ensures peers == map[]
    {
      peers := map[];
    }

    /** ReadFrom and handleCampFireMessage; the handlers run under the manager's lock. */
    method HandleMessage(msg: Message, src: Addr, t1: int, t2: int, writeOk: bool) returns (out: seq<Send>)
      modifies this
      ensures (peers, out) == Handle(old(peers), Receive(msg, src, t1, t2, writeOk))
    {
      out := [];
      if Validate(msg).Some? {
        return;
      }
      match msg.kind
      case ANNOUNCE => HandleAnnounce(msg, src, t1);
      case OFFER => out := HandleOffer(msg, src, t1, t2, writeOk);
      case ANSWER => out := HandleRelay(msg, src, t1, t2);
      case CANDIDATE => out := HandleRelay(msg, src, t1, t2);
      case _ =>
    }

    method HandleAnnounce(msg: Message, src: Addr, t1: int)
      modifies this
      ensures peers == old(peers)[Local(msg, "", NextExpiry(t1)) := src]
    {
      var peer := Local(msg, "", NextExpiry(t1));
      peers := peers[peer := src];
    }

    method HandleOffer(msg: Message, src: Addr, t1: int, t2: int, writeOk: bool) returns (out: seq<Send>)
      modifies this
      ensures (peers, out) == OfferStep(old(peers), Receive(msg, src, t1, t2, writeOk))
    {
      var lpeer := Local(msg, msg.id, NextExpiry(t1));
      peers := peers[lpeer := src];
      var rpeer := Remote(msg, "", NextExpiry(t2));
      if rpeer !in peers {
        return [];
      }
      out := [Send(msg, peers[rpeer])];
      if !writeOk {
        return;
      }
      rpeer := rpeer.(id := msg.id);
      peers := peers[rpeer := src];
    }

    /** Whether the write succeeds makes no difference here. */
    method HandleRelay(msg: Message, src: Addr, t1: int, t2: int) returns (out: seq<Send>)
      modifies this
      ensures forall writeOk :: (peers, out) == RelayStep(old(peers), Receive(msg, src, t1, t2, writeOk))
    {
      var lpeer := Local(msg, msg.id, NextExpiry(t1));
      peers := peers[lpeer := src];
      var rpeer := Remote(msg, msg.id, NextExpiry(t2));
      if rpeer !in peers {
        return [];
      }
      return [Send(msg, peers[rpeer])];
    }

    /** One tick of runPeerGC, visiting the map in any order. */
    method CollectPeers(t: int)
      modifies this
      ensures peers == Collect(old(peers), t)
    {
      var now := Truncate(t);
      var rest := peers.Keys;
      while rest != {}
        invariant rest <= old(peers).Keys
        invariant peers == map p | p in old(peers) && (p in rest || p.expires >= now) :: old(peers)[p]
        decreases rest
      {
        var peer :| peer in rest;
        rest := rest - {peer};
        if now > peer.expires {
          peers := peers - {peer};
        }
      }
    }
  }

  // ---------------------------------------------------------------------------------------------
  // Garbage collection is invisible
  // ---------------------------------------------------------------------------------------------

  function Begin(ev: Event): int {
    if ev.GC? then ev.t else ev.t1
  }

  function End(ev: Event): int {
    if ev.GC? then ev.t else ev.t2
  }

  /** The clock never goes back, neither within an event nor from one to the next. */
  ghost predicate Clock(evs: seq<Event>) {
    && (forall i :: 0 <= i < |evs| ==> Begin(evs[i]) <= End(evs[i]))
    && (forall i, j :: 0 <= i < j < |evs| ==> End(evs[i]) <= Begin(evs[j]))
  }

  function WithoutGC(evs: seq<Event>): seq<Event> {
    if evs == [] then [] else
      WithoutGC(evs[..|evs| - 1]) + if evs[|evs| - 1].GC? then [] else [evs[|evs| - 1]]
  }

  /** The maps agree on every entry that a lookup at or after `t` can find. */
  ghost predicate Agree(a: Peers, b: Peers, t: int) {
    forall p: Peer :: p.expires > Truncate(t) ==> (p in a <==> p in b) && (p in a ==> a[p] == b[p])
  }

  lemma TruncateMonotone(t: int, t': int)
    requires t <= t'
    ensures Truncate(t) <= Truncate(t') < NextExpiry(t')
  {
  }

  lemma AgreeLater(a: Peers, b: Peers, t: int, t': int)
    requires Agree(a, b, t) && t <= t'
    ensures Agree(a, b, t')
  {
    TruncateMonotone(t, t');
  }

  lemma OfferAgrees(a: Peers, b: Peers, ev: Event)
    requires ev.Receive? && ev.t1 <= ev.t2 && Agree(a, b, ev.t1)
    ensures OfferStep(a, ev).1 == OfferStep(b, ev).1
    ensures Agree(OfferStep(a, ev).0, OfferStep(b, ev).0, ev.t2)
  {
    TruncateMonotone(ev.t1, ev.t2);
    var remote := Remote(ev.msg, "", NextExpiry(ev.t2));
    assert remote.expires > Truncate(ev.t1);
  }

  lemma RelayAgrees(a: Peers, b: Peers, ev: Event)
    requires ev.Receive? && ev.t1 <= ev.t2 && Agree(a, b, ev.t1)
    ensures RelayStep(a, ev).1 == RelayStep(b, ev).1
    ensures Agree(RelayStep(a, ev).0, RelayStep(b, ev).0, ev.t2)
  {
    TruncateMonotone(ev.t1, ev.t2);
    var remote := Remote(ev.msg, ev.msg.id, NextExpiry(ev.t2));
    assert remote.expires > Truncate(ev.t1);
  }

  lemma ReceiveAgrees(a: Peers, b: Peers, ev: Event)
    requires ev.Receive? && ev.t1 <= ev.t2 && Agree(a, b, ev.t1)
    ensures Handle(a, ev).1 == Handle(b, ev).1
    ensures Agree(Handle(a, ev).0, Handle(b, ev).0, ev.t2)
  {
    AgreeLater(a, b, ev.t1, ev.t2);
    OfferAgrees(a, b, ev);
    RelayAgrees(a, b, ev);
  }

  lemma CollectAgrees(a: Peers, b: Peers, t: int)
    requires Agree(a, b, t)
    ensures Agree(Collect(a, t), b, t)
  {
  }

  lemma {:induction false} RunsAgree(peers: Peers, evs: seq<Event>, t: int)
    requires Clock(evs) && (evs != [] ==> End(evs[|evs| - 1]) <= t)
    ensures Agree(After(peers, evs), After(peers, WithoutGC(evs)), t)
    ensures Sent(peers, evs) == Sent(peers, WithoutGC(evs))
    decreases |evs|
  {
    if evs != [] {
      var front, last := evs[..|evs| - 1], evs[|evs| - 1];
      RunsAgree(peers, front, Begin(last));
      var a, b := After(peers, front), After(peers, WithoutGC(front));
      if last.GC? {
        CollectAgrees(a, b, last.t);
        AgreeLater(Collect(a, last.t), b, last.t, t);
        assert WithoutGC(evs) == WithoutGC(front);
      } else {
        ReceiveAgrees(a, b, last);
        AgreeLater(Handle(a, last).0, Handle(b, last).0, last.t2, t);
        var kept := WithoutGC(front) + [last];
        assert kept[..|kept| - 1] == WithoutGC(front);
        assert WithoutGC(evs) == kept;
      }
    }
  }

  /** Wherever the collector ticks, a run sends the same packets to the same addresses as without it. */
  lemma GCTransparent(peers: Peers, evs: seq<Event>)
    requires Clock(evs)
    ensures Sent(peers, evs) == Sent(peers, WithoutGC(evs))
  {
    RunsAgree(peers, evs, if evs == [] then 0 else End(evs[|evs| - 1]));
  }

  // ---------------------------------------------------------------------------------------------
  // Offers go to the latest announcement
  // ---------------------------------------------------------------------------------------------

  predicate Announces(ev: Event, key: Peer) {
    ev.Receive? && Validate(ev.msg).None? && ev.msg.kind == ANNOUNCE && Local(ev.msg, "", NextExpiry(ev.t1)) == key
  }

  /** The source of the latest announcement under a key. */
  function LatestAnnounce(evs: seq<Event>, key: Peer): Option<Addr> {
    if evs == [] then None
    else if Announces(evs[|evs| - 1], key) then Some(evs[|evs| - 1].src)
    else LatestAnnounce(evs[..|evs| - 1], key)
  }

  function Find(peers: Peers, key: Peer): Option<Addr> {
    if key in peers then Some(peers[key]) else None
  }

  /** Only announcements write keys without an id. */
  lemma IdlessKey(peers: Peers, ev: Event, key: Peer)
    requires key.id == "" && (ev.GC? ==> key.expires > Truncate(ev.t))
    ensures Find(Handle(peers, ev).0, key) == if Announces(ev, key) then Some(ev.src) else Find(peers, key)
  {
  }

  lemma {:induction false} IdlessIsLatest(evs: seq<Event>, key: Peer, t: int)
    requires Clock(evs) && (evs != [] ==> End(evs[|evs| - 1]) <= t)
    requires key.id == "" && key.expires > Truncate(t)
    ensures Find(After(map[], evs), key) == LatestAnnounce(evs, key)
    decreases |evs|
  {
    if evs != [] {
      var front, last := evs[..|evs| - 1], evs[|evs| - 1];
      TruncateMonotone(Begin(last), End(last));
      TruncateMonotone(End(last), t);
      IdlessIsLatest(front, key, Begin(last));
      IdlessKey(After(map[], front), last, key);
    }
  }

  /**
   In every run from an empty map an offer goes to the source of the latest announcement with exactly
   mirrored credentials in the same hour, and nowhere when there is none.
   */
  lemma OfferGoesToLatestAnnounce(evs: seq<Event>, offer: Event)
    requires Clock(evs + [offer])
    requires offer.Receive? && Validate(offer.msg).None? && offer.msg.kind == OFFER
    ensures Handle(After(map[], evs), offer).1 ==
            match LatestAnnounce(evs, Remote(offer.msg, "", NextExpiry(offer.t2)))
            case None => []
            case Some(addr) => [Send(offer.msg, addr)]
  {
    var all := evs + [offer];
    assert forall i :: 0 <= i < |evs| ==> all[i] == evs[i];
    assert all[|evs|] == offer;
    TruncateMonotone(offer.t1, offer.t2);
    IdlessIsLatest(evs, Remote(offer.msg, "", NextExpiry(offer.t2)), offer.t2);
  }

  // ---------------------------------------------------------------------------------------------
  // Answers and candidates go to the last writer
  // ---------------------------------------------------------------------------------------------

  /**
   The event writes its source under a key with an id: a valid message that is no announcement does so
   under its own key, and an offer that finds an announcement and is written out also under the mirrored one.
   */
  predicate Writes(before: seq<Event>, ev: Event, key: Peer) {
    && ev.Receive?
    && Validate(ev.msg).None?
    && (|| (ev.msg.kind != ANNOUNCE && Local(ev.msg, ev.msg.id, NextExpiry(ev.t1)) == key)
        || (&& ev.msg.kind == OFFER && ev.writeOk && Remote(ev.msg, ev.msg.id, NextExpiry(ev.t2)) == key
            && LatestAnnounce(before, Remote(ev.msg, "", NextExpiry(ev.t2))).Some?))
  }

  /** The last event of a run that writes under the key. */
  function LastWriter(evs: seq<Event>, key: Peer): (w: Option<Event>)
    ensures w.Some? ==> w.value.Receive?
  {
    if evs == [] then None else
      var front, last := evs[..|evs| - 1], evs[|evs| - 1];
      if Writes(front, last, key) then Some(last) else LastWriter(front, key)
  }

  /** What one event does to a key with an id. */
  lemma WriterStep(peers: Peers, before: seq<Event>, ev: Event, key: Peer)
    requires key.id != "" && (ev.GC? ==> key.expires > Truncate(ev.t))
    requires ev.Receive? ==>
               var idless := Remote(ev.msg, "", NextExpiry(ev.t2));
               Find(peers, idless) == LatestAnnounce(before, idless)
    ensures Find(Handle(peers, ev).0, key) == if Writes(before, ev, key) then Some(ev.src) else Find(peers, key)
  {
  }

  lemma {:induction false} LastWriterHolds(evs: seq<Event>, key: Peer, t: int)
    requires Clock(evs) && (evs != [] ==> End(evs[|evs| - 1]) <= t)
    requires key.id != "" && key.expires > Truncate(t)
    ensures Find(After(map[], evs), key) ==
            match LastWriter(evs, key) case None => None case Some(w) => Some(w.src)
    decreases |evs|
  {
    if evs != [] {
      var front, last := evs[..|evs| - 1], evs[|evs| - 1];
      TruncateMonotone(Begin(last), End(last));
      TruncateMonotone(End(last), t);
      LastWriterHolds(front, key, Begin(last));
      if last.Receive? {
        IdlessIsLatest(front, Remote(last.msg, "", NextExpiry(last.t2)), Begin(last));
      }
      WriterStep(After(map[], front), front, last, key);
    }
  }

  /** What the i-th event of a run from an empty map sends. */
  function SentAt(evs: seq<Event>, i: nat): seq<Send>
    requires i < |evs|
  {
    Handle(After(map[], evs[..i]), evs[i]).1
  }

  predicate Relays(ev: Event) {
    ev.Receive? && Validate(ev.msg).None? && (ev.msg.kind == ANSWER || ev.msg.kind == CANDIDATE)
  }

  /** The key under which an answer or a candidate looks for its receiver. */
  function Sought(ev: Event): Peer
    requires ev.Receive?
  {
    Remote(ev.msg, ev.msg.id, NextExpiry(ev.t2))
  }

  /**
   In every run from an empty map an answer or a candidate goes to the source of the last event that
   wrote under its mirrored key, its own write included, and nowhere when there is none.
   */
  lemma RelayGoesToLastWriter(evs: seq<Event>, i: nat)
    requires Clock(evs) && i < |evs| && Relays(evs[i])
    ensures SentAt(evs, i) == match LastWriter(evs[..i + 1], Sought(evs[i]))
                              case None => []
                              case Some(w) => [Send(evs[i].msg, w.src)]
  {
    var all, relay := evs[..i + 1], evs[i];
    assert all[..i] == evs[..i] && all[i] == relay;
    LastWriterHolds(all, Sought(relay), relay.t2);
  }

  /** So it comes back to its sender exactly when the last to write under that key was the sender. */
  lemma EchoExact(evs: seq<Event>, i: nat)
    requires Clock(evs) && i < |evs| && Relays(evs[i])
    ensures SentAt(evs, i) == [Send(evs[i].msg, evs[i].src)] <==>
            var w := LastWriter(evs[..i + 1], Sought(evs[i])); w.Some? && w.value.src == evs[i].src
  {
    RelayGoesToLastWriter(evs, i);
  }

  // ---------------------------------------------------------------------------------------------
  // Sessions
  // ---------------------------------------------------------------------------------------------

  /** A message of a session: sent under the key, within the key's hour. */
  predicate SentUnder(ev: Event, key: Peer, src: Addr) {
    && ev.Receive?
    && Validate(ev.msg).None?
    && ev.src == src
    && NextExpiry(ev.t1) == NextExpiry(ev.t2) == key.expires
    && Local(ev.msg, ev.msg.id, key.expires) == key
  }

  /** From the i-th event on, up to but not including the n-th, only `src` writes under the key. */
  ghost predicate OnlyFrom(evs: seq<Event>, i: nat, n: nat, key: Peer, src: Addr)
    requires n <= |evs|
  {
    forall k :: i <= k < n && Writes(evs[..k], evs[k], key) ==> evs[k].src == src
  }

  lemma {:induction false} LastWriterIs(evs: seq<Event>, i: nat, n: nat, key: Peer, src: Addr)
    requires i < n <= |evs| && Writes(evs[..i], evs[i], key) && OnlyFrom(evs, i, n, key, src)
    ensures var w := LastWriter(evs[..n], key); w.Some? && w.value.src == src
    decreases n
  {
    var last := n - 1;
    assert evs[..n][..last] == evs[..last];
    if i < last && !Writes(evs[..last], evs[last], key) {
      LastWriterIs(evs, i, last, key, src);
    }
  }

  /** A message sought under a key that only one address has written since the i-th event goes there. */
  lemma RelayReaches(evs: seq<Event>, i: nat, r: nat, key: Peer, src: Addr)
    requires Clock(evs) && i < r < |evs| && Relays(evs[r]) && Sought(evs[r]) == key
    requires Writes(evs[..i], evs[i], key) && OnlyFrom(evs, i, r + 1, key, src)
    ensures SentAt(evs, r) == [Send(evs[r].msg, src)]
  {
    RelayGoesToLastWriter(evs, r);
    LastWriterIs(evs, i, r + 1, key, src);
  }

  /**
   A session. The i-th event is an offer and the j-th an answer under the mirrored key, in the same hour.
   From each of them on, only its sender writes under its key. Then the answer goes to the offerer, and
   every later candidate of either side goes to the other one.
   */
  lemma SessionRelays(evs: seq<Event>, i: nat, j: nat, r: nat, key: Peer)
    requires Clock(evs) && i < j < r < |evs| && Mirror(key) != key && evs[i].Receive? && evs[j].Receive?
    requires SentUnder(evs[i], key, evs[i].src) && evs[i].msg.kind == OFFER
    requires SentUnder(evs[j], Mirror(key), evs[j].src) && evs[j].msg.kind == ANSWER
    requires OnlyFrom(evs, i, r + 1, key, evs[i].src) && OnlyFrom(evs, j, r + 1, Mirror(key), evs[j].src)
    requires SentUnder(evs[r], key, evs[i].src) || SentUnder(evs[r], Mirror(key), evs[j].src)
    requires evs[r].Receive? && evs[r].msg.kind == CANDIDATE
    ensures SentAt(evs, j) == [Send(evs[j].msg, evs[i].src)]
    ensures SentAt(evs, r) ==
            [Send(evs[r].msg, if SentUnder(evs[r], key, evs[i].src) then evs[j].src else evs[i].src)]
  {
    assert Sought(evs[j]) == Mirror(Mirror(key)) == key;
    RelayReaches(evs, i, j, key, evs[i].src);
    if SentUnder(evs[r], key, evs[i].src) {
      assert Sought(evs[r]) == Mirror(key);
      RelayReaches(evs, j, r, Mirror(key), evs[j].src);
    } else {
      RelayReaches(evs, i, r, key, evs[i].src);
    }
  }

  /**
   Before the answer the mirrored key holds the offerer's own address, so a candidate that the offerer
   sends after its offer was relayed comes back to it, unless somebody else wrote under that key.
   */
  lemma EarlyCandidateEchoes(evs: seq<Event>, i: nat, r: nat, key: Peer)
    requires Clock(evs) && i < r < |evs| && Mirror(key) != key && evs[i].Receive? && evs[r].Receive?
    requires SentUnder(evs[i], key, evs[i].src) && evs[i].msg.kind == OFFER && evs[i].writeOk
    requires LatestAnnounce(evs[..i], Mirror(key).(id := "")).Some?
    requires SentUnder(evs[r], key, evs[i].src) && evs[r].msg.kind == CANDIDATE
    requires OnlyFrom(evs, i, r + 1, Mirror(key), evs[i].src)
    ensures SentAt(evs, r) == [Send(evs[r].msg, evs[i].src)]
  {
    assert Remote(evs[i].msg, "", key.expires) == Mirror(key).(id := "");
    RelayReaches(evs, i, r, Mirror(key), evs[i].src);
  }

  // ---------------------------------------------------------------------------------------------
  // In the terms of the messages
  // ---------------------------------------------------------------------------------------------

  /** What makes a message valid. */
  lemma ValidExact(msg: Message)
    ensures Validate(msg).None? <==>
            && (msg.kind == ANNOUNCE || (msg.kind in {OFFER, ANSWER, CANDIDATE} && msg.id != ""))
            && msg.lufrag != "" && msg.lpwd != "" && msg.rufrag != "" && msg.rpwd != ""
  {
  }

  /** The sender's credentials are what the other message expects, and the other way round. */
  predicate Mirrored(msg: Message, other: Message) {
    && msg.lufrag == other.rufrag && msg.lpwd == other.rpwd
    && msg.rufrag == other.lufrag && msg.rpwd == other.lpwd
  }

  lemma SameHour(t: int, t': int)
    ensures NextExpiry(t) == NextExpiry(t') <==> t / 3600 == t' / 3600
  {
  }

  /** The announcement that an offer looks for: a valid one with mirrored credentials from the same hour. */
  lemma SoughtAnnouncement(ev: Event, offer: Event)
    requires ev.Receive? && offer.Receive?
    ensures Announces(ev, Remote(offer.msg, "", NextExpiry(offer.t2))) <==>
            && Validate(ev.msg).None? && ev.msg.kind == ANNOUNCE && Mirrored(ev.msg, offer.msg)
            && ev.t1 / 3600 == offer.t2 / 3600
  {
    SameHour(ev.t1, offer.t2);
  }

  /**
   The write that an answer or candidate looks for: a valid message with its id that is no announcement, has
   mirrored credentials and is from the same hour; or an offer with its id and its own credentials that was
   relayed in that hour.
   */
  lemma SoughtWrite(before: seq<Event>, ev: Event, relay: Event)
    requires ev.Receive? && relay.Receive?
    ensures Writes(before, ev, Sought(relay)) <==>
            && Validate(ev.msg).None? && ev.msg.id == relay.msg.id
            && (|| (ev.msg.kind != ANNOUNCE && Mirrored(ev.msg, relay.msg) && ev.t1 / 3600 == relay.t2 / 3600)
                || (&& ev.msg.kind == OFFER && ev.writeOk && ev.t2 / 3600 == relay.t2 / 3600
                    && ev.msg.lufrag == relay.msg.lufrag && ev.msg.lpwd == relay.msg.lpwd
                    && ev.msg.rufrag == relay.msg.rufrag && ev.msg.rpwd == relay.msg.rpwd
                    && LatestAnnounce(before, Remote(ev.msg, "", NextExpiry(ev.t2))).Some?))
  {
    SameHour(ev.t1, relay.t2);
    SameHour(ev.t2, relay.t2);
  }

  /** Wherever in a run the collector ticks, it drops exactly what expired before the hour of the tick. */
  lemma CollectedExact(peers: Peers, evs: seq<Event>, t: int, p: Peer)
    ensures var before, after := After(peers, evs), After(peers, evs + [GC(t)]);
            && (p in after <==> p in before && p.expires >= t / 3600 * 3600)
            && (p in after ==> after[p] == before[p])
  {
    var all := evs + [GC(t)];
    assert all[..|all| - 1] == evs && all[|all| - 1] == GC(t);
  }

  /** So nothing outlives a tick two hours or more after it was written. */
  lemma NothingStays(peers: Peers, evs: seq<Event>, t: int, p: Peer, written: int)
    requires p.expires == NextExpiry(written) && t - written >= 7200
    ensures p !in After(peers, evs + [GC(t)])
  {
    CollectedExact(peers, evs, t, p);
  }
}
