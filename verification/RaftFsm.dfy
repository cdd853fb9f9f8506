/**
 Applying the Raft log to storage (pkg/raft/fsm.go, pkg/meshdb/raftlogs/apply.go).

 An entry that is stale by term or index is skipped, but its index and term are stored all the same, so
 it rewinds the counters and the entries after it are applied again. The theorems say that this
 converges under every delivery without gaps, whatever restarts and snapshots come between.
 */
module RaftFsm {
  import opened Wrappers
  import opened KeyValue

  datatype Command = Put(key: string, value: string) | Delete(key: string) | UnknownType

  /** Entries of other types than commands carry nothing; a command may fail to decode. */
  datatype Payload = NotACommand | Undecodable | Decoded(command: Command)

  datatype Entry = Entry(index: nat, term: nat, payload: Payload)

  type Data = map<string, string>

  datatype State = State(data: Data, index: nat, term: nat)

  /** RaftApplyResponse: its error, if any. */
  datatype Response = NoError | StorageFailure(error: StorageError) | UnknownCommandType | DecodeFailure

  // ---------------------------------------------------------------------------------------------
  // One entry
  // ---------------------------------------------------------------------------------------------

  /** raftlogs.Apply, as a function on storage. */
  function CommandEffect(data: Data, c: Command): Data {
    match c
    case Put(key, value) => AfterPut(data, key, value)
    case Delete(key) => AfterDelete(data, key)
    case UnknownType => data
  }

  function CommandReply(c: Command): Response {
    if c.UnknownType? then UnknownCommandType
    else if WriteError(c.key).Some? then StorageFailure(WriteError(c.key).value)
    else NoError
  }

  function Effect(data: Data, e: Entry): Data {
    if e.payload.Decoded? then CommandEffect(data, e.payload.command) else data
  }

  predicate Stale(s: State, e: Entry) {
    e.term < s.term || e.index <= s.index
  }

  function Step(s: State, e: Entry): State {
    State(if Stale(s, e) then s.data else Effect(s.data, e), e.index, e.term)
  }

  function Reply(s: State, e: Entry): Response {
    if Stale(s, e) then NoError else
      match e.payload
      case NotACommand => NoError
      case Undecodable => DecodeFailure
      case Decoded(c) => CommandReply(c)
  }

  /** The node after the entries from i up to j of a sequence have been handed to it, in order. */
  function Run(s: State, es: seq<Entry>, i: nat, j: nat): State
    requires j <= |es|
  {
    if j <= i then s else Step(Run(s, es, i, j - 1), es[j - 1])
  }

  /** The responses to the first n entries. */
  function Replies(s: State, es: seq<Entry>, n: nat): (rs: seq<Response>)
    requires n <= |es|
    ensures |rs| == n
  {
    if n == 0 then [] else Replies(s, es, n - 1) + [Reply(Run(s, es, 0, n - 1), es[n - 1])]
  }

  /** The reference: every entry from i up to j takes effect, in order. */
  function Fold(data: Data, es: seq<Entry>, i: nat, j: nat): Data
    requires j <= |es|
  {
    if j <= i then data else Effect(Fold(data, es, i, j - 1), es[j - 1])
  }

  // ---------------------------------------------------------------------------------------------
  // The node
  // ---------------------------------------------------------------------------------------------

  class RaftNode {
    var data: Data
    var lastAppliedIndex: nat
    var currentTerm: nat

    function View(): State
      reads this
    {
      State(data, lastAppliedIndex, currentTerm)
    }

    /** A started node: its counters begin at zero, its data is what the disk holds. */
    constructor (disk: Data)
      ensures View() == State(disk, 0, 0)
    {
      data, lastAppliedIndex, currentTerm := disk, 0, 0;
    }

    /** raftlogs.Apply. */
    method ApplyCommand(c: Command) returns (res: Response)
      modifies this`data
      ensures data == CommandEffect(old(data), c)
      ensures res == CommandReply(c)
    {
      match c
      case Put(key, value) =>
        if key == "" {
          return StorageFailure(KeyIsEmpty);
        }
        data := data[key := value];
        return NoError;
      case Delete(key) =>
        if key == "" {
          return StorageFailure(KeyIsEmpty);
        }
        data := data - {key};
        return NoError;
      case UnknownType =>
        return UnknownCommandType;
    }

    /** applyLog: the two deferred stores run on every path. */
    method ApplyLog(l: Entry) returns (res: Response)
      modifies this
      ensures View() == Step(old(View()), l)
      ensures res == Reply(old(View()), l)
    {
      var dbTerm, dbIndex := currentTerm, lastAppliedIndex;
      if l.term < dbTerm {
        res := NoError;
      } else if l.index <= dbIndex {
        res := NoError;
      } else {
        match l.payload
        case NotACommand => res := NoError;
        case Undecodable => res := DecodeFailure;
        case Decoded(c) => res := ApplyCommand(c);
      }
      currentTerm := l.term;
      lastAppliedIndex := l.index;
    }

    method ApplyBatch(logs: seq<Entry>) returns (res: seq<Response>)
      modifies this
      ensures View() == Run(old(View()), logs, 0, |logs|)
      ensures res == Replies(old(View()), logs, |logs|)
    {
      res := [];
      for i := 0 to |logs|
        invariant View() == Run(old(View()), logs, 0, i)
        invariant res == Replies(old(View()), logs, i)
      {
        var r := ApplyLog(logs[i]);
        res := res + [r];
      }
    }

    /** Restore: the storage is dropped and loaded; the counters stay as they are. */
    method Restore(snapshot: Data)
      modifies this`data
      ensures data == snapshot
    {
      data := snapshot;
    }
  }

  lemma {:induction false} RunPrefix(s: State, a: seq<Entry>, b: seq<Entry>, n: nat)
    requires n <= |a|
    ensures Run(s, a + b, 0, n) == Run(s, a, 0, n) && Replies(s, a + b, n) == Replies(s, a, n)
  {
    if n > 0 {
      RunPrefix(s, a, b, n - 1);
    }
  }

  lemma {:induction false} RunSuffix(s: State, a: seq<Entry>, b: seq<Entry>, n: nat)
    requires n <= |b|
    ensures Run(s, a + b, 0, |a| + n) == Run(Run(s, a, 0, |a|), b, 0, n)
    ensures Replies(s, a + b, |a| + n) == Replies(s, a, |a|) + Replies(Run(s, a, 0, |a|), b, n)
  {
    if n == 0 {
      RunPrefix(s, a, b, |a|);
    } else {
      RunSuffix(s, a, b, n - 1);
    }
  }

  function Flatten(batches: seq<seq<Entry>>): seq<Entry> {
    if batches == [] then [] else batches[0] + Flatten(batches[1..])
  }

  function RunBatches(s: State, batches: seq<seq<Entry>>): (State, seq<Response>)
    decreases |batches|
  {
    if batches == [] then (s, []) else
      var batch := batches[0];
      var rest := RunBatches(Run(s, batch, 0, |batch|), batches[1..]);
      (rest.0, Replies(s, batch, |batch|) + rest.1)
  }

  /** Any division into batches gives the state and the responses of applying one by one. */
  lemma {:induction false} BatchingIsInvisible(s: State, batches: seq<seq<Entry>>)
    ensures var all := Flatten(batches);
            RunBatches(s, batches) == (Run(s, all, 0, |all|), Replies(s, all, |all|))
    decreases |batches|
  {
    if batches != [] {
      var batch, rest := batches[0], Flatten(batches[1..]);
      BatchingIsInvisible(Run(s, batch, 0, |batch|), batches[1..]);
      RunSuffix(s, batch, rest, |rest|);
    }
  }

  // ---------------------------------------------------------------------------------------------
  // The last write wins
  // ---------------------------------------------------------------------------------------------

  /** What the entries from i up to j leave at a key: nothing at all, a value, or a deletion. */
  function LastWrite(es: seq<Entry>, i: nat, j: nat, key: string): Option<Option<string>>
    requires j <= |es|
  {
    if j <= i then None else
      match es[j - 1].payload
      case Decoded(Put(k, v)) => if k == key && k != "" then Some(Some(v)) else LastWrite(es, i, j - 1, key)
      case Decoded(Delete(k)) => if k == key && k != "" then Some(None) else LastWrite(es, i, j - 1, key)
      case _ => LastWrite(es, i, j - 1, key)
  }

  lemma {:induction false} FoldAt(data: Data, es: seq<Entry>, i: nat, j: nat, key: string)
    requires j <= |es|
    ensures Lookup(Fold(data, es, i, j), key) ==
            if LastWrite(es, i, j, key).Some? then LastWrite(es, i, j, key).value else Lookup(data, key)
    decreases j
  {
    if j > i {
      FoldAt(data, es, i, j - 1, key);
    }
  }

  lemma {:induction false} LastWriteSplit(es: seq<Entry>, i: nat, m: nat, j: nat, key: string)
    requires i <= m <= j <= |es|
    ensures LastWrite(es, i, j, key) ==
            if LastWrite(es, m, j, key).Some? then LastWrite(es, m, j, key) else LastWrite(es, i, m, key)
    decreases j
  {
    if j > m {
      LastWriteSplit(es, i, m, j - 1, key);
    }
  }

  /**
   Data from which the entries between `m` and `j` lead to the right result also leads there from any
   earlier point `i`: what the entries before `m` write again is either overwritten or already right.
   */
  lemma Backtrack(d0: Data, data: Data, es: seq<Entry>, i: nat, m: nat, j: nat)
    requires i <= m <= j <= |es| && Fold(data, es, m, j) == Fold(d0, es, 0, j)
    ensures Fold(data, es, i, j) == Fold(d0, es, 0, j)
  {
    forall k ensures Lookup(Fold(data, es, i, j), k) == Lookup(Fold(d0, es, 0, j), k) {
      FoldAt(data, es, m, j, k);
      FoldAt(data, es, i, j, k);
      FoldAt(d0, es, 0, j, k);
      LastWriteSplit(es, i, m, j, k);
      LastWriteSplit(es, 0, i, j, k);
    }
    SameLookups(Fold(data, es, i, j), Fold(d0, es, 0, j));
  }

  /** The first of a range of entries, then the rest. */
  lemma {:induction false} FoldFirst(data: Data, es: seq<Entry>, i: nat, j: nat)
    requires i < j <= |es|
    ensures Fold(data, es, i, j) == Fold(Effect(data, es[i]), es, i + 1, j)
    decreases j
  {
    if j > i + 1 {
      FoldFirst(data, es, i, j - 1);
    }
  }

  /**
   What one entry does to a key: nothing if its term is older than the counter or its index is not newer,
   even on a log that is not a committed one; otherwise its own write, if any.
   */
  lemma StepAt(s: State, e: Entry, key: string)
    ensures Step(s, e).index == e.index && Step(s, e).term == e.term
    ensures Lookup(Step(s, e).data, key) ==
            if e.term < s.term || e.index <= s.index || LastWrite([e], 0, 1, key) == None then Lookup(s.data, key)
            else LastWrite([e], 0, 1, key).value
  {
    FoldAt(s.data, [e], 0, 1, key);
  }

  /** Exactly those entries are answered with an error that are applied, and do not decode or write nothing. */
  lemma ReplyExact(s: State, e: Entry)
    ensures Reply(s, e) != NoError <==>
            && s.term <= e.term && s.index < e.index
            && (|| e.payload.Undecodable?
                || (e.payload.Decoded? && (e.payload.command.UnknownType? || e.payload.command.key == "")))
  {
  }

  // ---------------------------------------------------------------------------------------------
  // Schedules
  // ---------------------------------------------------------------------------------------------

  /** A committed log: indexes start at one and increase, terms never decrease. */
  ghost predicate Committed(log: seq<Entry>) {
    && (forall i :: 0 <= i < |log| ==> log[i].index >= 1)
    && (forall i, j :: 0 <= i < j < |log| ==> log[i].index < log[j].index && log[i].term <= log[j].term)
  }

  /**
   Deliver(p) hands entry p, counting from zero, to the node. Restore(m) loads the snapshot taken after
   the first m entries. Restart loses the counters and keeps the data on disk.
   */
  datatype Event = Deliver(p: nat) | Restore(m: nat) | Restart

  /**
   A node and its place in the log: the counters are those of the first `at` entries, deliveries have
   come as far as `reach`, and `top` is the furthest entry whose effect the data may hold.
   */
  datatype Replica = Replica(fsm: State, at: nat, reach: nat, top: nat)

  /**
   No gap: an entry follows its predecessor or repeats, and none is skipped whose effect the data lacks. The
   latter can only be the entry that follows a snapshot older than the counters.
   */
  predicate Gapless(r: Replica, p: nat) {
    p <= r.reach && (p < r.at ==> p < r.reach)
  }

  predicate Legal(log: seq<Entry>, r: Replica, ev: Event) {
    match ev
    case Deliver(p) => Gapless(r, p) && p < |log|
    case Restore(m) => m <= |log|
    case Restart => true
  }

  function Max(a: nat, b: nat): nat {
    if a > b then a else b
  }

  function Next(log: seq<Entry>, d0: Data, r: Replica, ev: Event): Replica {
    if !Legal(log, r, ev) then r else
    match ev
    case Deliver(p) => Replica(Step(r.fsm, log[p]), p + 1, p + 1, Max(r.top, p + 1))
    case Restore(m) => Replica(r.fsm.(data := Fold(d0, log, 0, m)), r.at, m, m)
    case Restart => r.(fsm := State(r.fsm.data, 0, 0), at := 0)
  }

  function Fresh(d0: Data): Replica {
    Replica(State(d0, 0, 0), 0, 0, 0)
  }

  /** Delivering what lies between `reach` and `top` completes the data. */
  ghost predicate Completes(log: seq<Entry>, d0: Data, data: Data, reach: nat, top: nat)
    requires reach <= top <= |log|
  {
    Fold(data, log, reach, top) == Fold(d0, log, 0, top)
  }

  ghost predicate Recoverable(log: seq<Entry>, d0: Data, r: Replica) {
    && r.at <= |log| && r.reach <= r.top <= |log|
    && r.fsm.index == (if r.at == 0 then 0 else log[r.at - 1].index)
    && r.fsm.term == (if r.at == 0 then 0 else log[r.at - 1].term)
    && Completes(log, d0, r.fsm.data, r.reach, r.top)
  }

  /** An entry takes effect exactly when it lies at or beyond the counters. */
  lemma StaleIffBehind(log: seq<Entry>, d0: Data, r: Replica, p: nat)
    requires Committed(log) && Recoverable(log, d0, r) && p < |log|
    ensures Stale(r.fsm, log[p]) <==> p < r.at
  {
    if r.at > 0 {
      assert p < r.at - 1 ==> log[p].index < log[r.at - 1].index;
      assert p > r.at - 1 ==> log[r.at - 1].index < log[p].index;
    }
  }

  lemma SkippedCompletes(log: seq<Entry>, d0: Data, data: Data, p: nat, reach: nat, top: nat)
    requires p < reach <= top <= |log| && Completes(log, d0, data, reach, top)
    ensures Completes(log, d0, data, p + 1, top)
  {
    Backtrack(d0, data, log, p + 1, reach, top);
  }

  lemma AppliedCompletes(log: seq<Entry>, d0: Data, data: Data, p: nat, reach: nat, top: nat)
    requires p <= reach <= top <= |log| && p < |log| && Completes(log, d0, data, reach, top)
    ensures Completes(log, d0, Effect(data, log[p]), p + 1, Max(top, p + 1))
  {
    Backtrack(d0, data, log, p, reach, top);
    if p < top {
      FoldFirst(data, log, p, top);
    }
  }

  lemma DeliverKeepsRecoverable(log: seq<Entry>, d0: Data, r: Replica, p: nat)
    requires Committed(log) && Recoverable(log, d0, r) && Legal(log, r, Deliver(p))
    ensures Recoverable(log, d0, Next(log, d0, r, Deliver(p)))
  {
    StaleIffBehind(log, d0, r, p);
    if p < r.at {
      SkippedCompletes(log, d0, r.fsm.data, p, r.reach, r.top);
    } else {
      AppliedCompletes(log, d0, r.fsm.data, p, r.reach, r.top);
    }
  }

  lemma RestoreKeepsRecoverable(log: seq<Entry>, d0: Data, r: Replica, m: nat)
    requires Recoverable(log, d0, r) && Legal(log, r, Restore(m))
    ensures Recoverable(log, d0, Next(log, d0, r, Restore(m)))
  {
  }

  /** A run of events; None as soon as one is not legal. */
  function Play(log: seq<Entry>, d0: Data, r: Replica, evs: seq<Event>): Option<Replica>
    decreases |evs|
  {
    if evs == [] then Some(r)
    else if !Legal(log, r, evs[0]) then None
    else Play(log, d0, Next(log, d0, r, evs[0]), evs[1..])
  }

  lemma {:induction false} PlayKeepsRecoverable(log: seq<Entry>, d0: Data, r: Replica, evs: seq<Event>)
    requires Committed(log) && Recoverable(log, d0, r)
    ensures var r' := Play(log, d0, r, evs); r'.Some? ==> Recoverable(log, d0, r'.value)
    decreases |evs|
  {
    if evs != [] && Legal(log, r, evs[0]) {
      match evs[0] {
        case Deliver(p) => DeliverKeepsRecoverable(log, d0, r, p);
        case Restore(m) => RestoreKeepsRecoverable(log, d0, r, m);
        case Restart =>
      }
      PlayKeepsRecoverable(log, d0, Next(log, d0, r, evs[0]), evs[1..]);
    }
  }

  lemma FreshIsRecoverable(log: seq<Entry>, d0: Data)
    ensures Recoverable(log, d0, Fresh(d0))
  {
  }

  /**
   Convergence. Take any run from a fresh node: deliveries that repeat or go back at will but never leave
   a gap, restored snapshots, restarts. Whenever the deliveries have caught up, the data is exactly that
   of every entry applied once in order.
   */
  lemma Converges(log: seq<Entry>, d0: Data, evs: seq<Event>)
    requires Committed(log)
    ensures var r := Play(log, d0, Fresh(d0), evs);
            r.Some? && r.value.reach == r.value.top ==>
              r.value.top <= |log| && r.value.fsm.data == Fold(d0, log, 0, r.value.top)
  {
    FreshIsRecoverable(log, d0);
    PlayKeepsRecoverable(log, d0, Fresh(d0), evs);
  }

  /** The replica after delivering the entries from k up to n, one after the other. */
  function DeliverTo(log: seq<Entry>, d0: Data, r: Replica, k: nat, n: nat): Replica {
    if n <= k then r else Next(log, d0, DeliverTo(log, d0, r, k, n - 1), Deliver(n - 1))
  }

  ghost predicate CaughtUp(log: seq<Entry>, d0: Data, r: Replica, r': Replica, k: nat, n: nat) {
    && Recoverable(log, d0, r')
    && (if n > k then r'.at == r'.reach == n && r'.top == Max(r.top, n) else r' == r)
  }

  lemma CatchUp(log: seq<Entry>, d0: Data, r: Replica, r': Replica, k: nat, n: nat)
    requires Committed(log) && Gapless(r, k) && r.reach <= r.top && k <= n < |log| && CaughtUp(log, d0, r, r', k, n)
    ensures CaughtUp(log, d0, r, Next(log, d0, r', Deliver(n)), k, n + 1)
  {
    DeliverKeepsRecoverable(log, d0, r', n);
  }

  lemma {:induction false} DeliverToKeeps(log: seq<Entry>, d0: Data, r: Replica, k: nat, n: nat)
    requires Committed(log) && Recoverable(log, d0, r) && Gapless(r, k) && k <= n <= |log|
    ensures CaughtUp(log, d0, r, DeliverTo(log, d0, r, k, n), k, n)
    decreases n
  {
    if n > k {
      DeliverToKeeps(log, d0, r, k, n - 1);
      CatchUp(log, d0, r, DeliverTo(log, d0, r, k, n - 1), k, n - 1);
    }
  }

  lemma {:induction false} DeliverToRuns(log: seq<Entry>, d0: Data, r: Replica, k: nat, n: nat)
    requires Committed(log) && Recoverable(log, d0, r) && Gapless(r, k) && k <= n <= |log|
    ensures DeliverTo(log, d0, r, k, n).fsm == Run(r.fsm, log, k, n)
    decreases n
  {
    if n > k {
      DeliverToKeeps(log, d0, r, k, n - 1);
      DeliverToRuns(log, d0, r, k, n - 1);
    }
  }

  /** Delivering k up to n by the source's rules, to a replica that has come at least as far as k. */
  lemma DeliverRange(log: seq<Entry>, d0: Data, r: Replica, k: nat, n: nat) returns (r': Replica)
    requires Committed(log) && Recoverable(log, d0, r) && Gapless(r, k) && k < n <= |log|
    ensures r'.fsm == Run(r.fsm, log, k, n)
    ensures Recoverable(log, d0, r') && r'.at == r'.reach == n && r'.top == Max(r.top, n)
  {
    r' := DeliverTo(log, d0, r, k, n);
    DeliverToKeeps(log, d0, r, k, n);
    DeliverToRuns(log, d0, r, k, n);
  }

  /**
   Replay. After the first n entries, delivering any part of them again up to n leaves data, index and
   term as they were.
   */
  lemma ReplayConverges(log: seq<Entry>, d0: Data, k: nat, n: nat)
    requires Committed(log) && k < n <= |log|
    ensures var s := Run(State(d0, 0, 0), log, 0, n);
            && s == State(Fold(d0, log, 0, n), log[n - 1].index, log[n - 1].term)
            && Run(s, log, k, n) == s
  {
    FreshIsRecoverable(log, d0);
    var r := DeliverRange(log, d0, Fresh(d0), 0, n);
    var r' := DeliverRange(log, d0, r, k, n);
  }

  /** Of a partial replay, all entries but the first take effect again. */
  lemma {:induction false} ReplayedData(log: seq<Entry>, s: State, k: nat, m: nat)
    requires Committed(log) && k < m <= |log| && Stale(s, log[k])
    ensures Run(s, log, k, m) == State(Fold(s.data, log, k + 1, m), log[m - 1].index, log[m - 1].term)
    decreases m
  {
    if m > k + 1 {
      ReplayedData(log, s, k, m - 1);
    }
  }

  /**
   Stopping a replay early. After the first n entries, deliver k up to m only. The counters then say m,
   but the data is that of the first m entries exactly when each key on which m and n differ is written
   by one of the entries that are applied again.
   */
  lemma PartialReplay(log: seq<Entry>, d0: Data, k: nat, m: nat, n: nat)
    requires Committed(log) && k < m < n <= |log|
    ensures var s := Run(Run(State(d0, 0, 0), log, 0, n), log, k, m);
            && s.index == log[m - 1].index
            && (s.data == Fold(d0, log, 0, m) <==>
                forall key :: Lookup(Fold(d0, log, 0, n), key) == Lookup(Fold(d0, log, 0, m), key)
                              || LastWrite(log, k + 1, m, key).Some?)
  {
    ReplayConverges(log, d0, k, n);
    var all := Run(State(d0, 0, 0), log, 0, n);
    assert log[k].index < log[n - 1].index;
    ReplayedData(log, all, k, m);
    var s := Run(all, log, k, m);
    forall key
      ensures Lookup(s.data, key) == Lookup(Fold(d0, log, 0, m), key) <==>
              Lookup(Fold(d0, log, 0, n), key) == Lookup(Fold(d0, log, 0, m), key)
                  || LastWrite(log, k + 1, m, key).Some?
    {
      FoldAt(all.data, log, k + 1, m, key);
      FoldAt(d0, log, 0, m, key);
      LastWriteSplit(log, 0, k + 1, m, key);
    }
    if forall key :: Lookup(s.data, key) == Lookup(Fold(d0, log, 0, m), key) {
      SameLookups(s.data, Fold(d0, log, 0, m));
    }
  }

  /** From an entry that is not stale on, all entries take effect. */
  lemma {:induction false} AppliedData(log: seq<Entry>, s: State, k: nat, m: nat)
    requires Committed(log) && k < m <= |log| && !Stale(s, log[k])
    ensures Run(s, log, k, m) == State(Fold(s.data, log, k, m), log[m - 1].index, log[m - 1].term)
    decreases m
  {
    if m > k + 1 {
      AppliedData(log, s, k, m - 1);
    }
  }

  /** Each key on which the first p and the first q entries differ is written again between q and n. */
  ghost predicate Rewritten(log: seq<Entry>, d0: Data, p: nat, q: nat, n: nat)
    requires p <= q <= n <= |log|
  {
    forall key :: Lookup(Fold(d0, log, 0, p), key) == Lookup(Fold(d0, log, 0, q), key)
        || LastWrite(log, q, n, key).Some?
  }

  /** Leaving out the entries from p up to q does no harm exactly then. */
  lemma SkippedExact(log: seq<Entry>, d0: Data, p: nat, q: nat, n: nat)
    requires p <= q <= n <= |log|
    ensures Fold(Fold(d0, log, 0, p), log, q, n) == Fold(d0, log, 0, n) <==> Rewritten(log, d0, p, q, n)
  {
    var data, all := Fold(Fold(d0, log, 0, p), log, q, n), Fold(d0, log, 0, n);
    forall key
      ensures Lookup(data, key) == Lookup(all, key) <==>
              Lookup(Fold(d0, log, 0, p), key) == Lookup(Fold(d0, log, 0, q), key) || LastWrite(log, q, n, key).Some?
    {
      FoldAt(Fold(d0, log, 0, p), log, q, n, key);
      FoldAt(d0, log, 0, n, key);
      FoldAt(d0, log, 0, q, key);
      LastWriteSplit(log, 0, q, n, key);
    }
    if data == all {
      forall key ensures Lookup(Fold(d0, log, 0, p), key) == Lookup(Fold(d0, log, 0, q), key)
                         || LastWrite(log, q, n, key).Some? {
        assert Lookup(data, key) == Lookup(all, key);
      }
    } else if forall key :: Lookup(data, key) == Lookup(all, key) {
      SameLookups(data, all);
    } else {
      var key :| Lookup(data, key) != Lookup(all, key);
      assert Lookup(Fold(d0, log, 0, p), key) != Lookup(Fold(d0, log, 0, q), key);
    }
  }

  /**
   A gap. After the first p entries, deliver q up to n without those between. The counters then say n,
   but the data is that of the first n entries exactly when each key that the gap changes is written again.
   */
  lemma GapExact(log: seq<Entry>, d0: Data, p: nat, q: nat, n: nat)
    requires Committed(log) && p <= q < n <= |log|
    ensures var s := Run(Run(State(d0, 0, 0), log, 0, p), log, q, n);
            s.index == log[n - 1].index && (s.data == Fold(d0, log, 0, n) <==> Rewritten(log, d0, p, q, n))
  {
    if p > 0 {
      AppliedData(log, State(d0, 0, 0), 0, p);
    }
    AppliedData(log, Run(State(d0, 0, 0), log, 0, p), q, n);
    SkippedExact(log, d0, p, q, n);
  }

  /**
   Snapshot overlap. Load the snapshot taken after the first m entries into any recoverable node, then
   deliver from any j up to n, overlapping the snapshot or continuing it. The counters say n, and so does
   the data, with one exception: if the snapshot is older than the counters and the delivery starts right
   after it, entry m is skipped, which does no harm exactly when each key it changes is written again.
   */
  lemma SnapshotOverlap(log: seq<Entry>, d0: Data, r: Replica, m: nat, j: nat, n: nat)
    requires Committed(log) && Recoverable(log, d0, r) && j <= m <= n <= |log| && j < n
    ensures var s := Run(r.fsm.(data := Fold(d0, log, 0, m)), log, j, n);
            && s.index == log[n - 1].index && s.term == log[n - 1].term
            && (s.data == Fold(d0, log, 0, n) <==> (j == m < r.at ==> Rewritten(log, d0, m, m + 1, n)))
  {
    var restored := Next(log, d0, r, Restore(m));
    RestoreKeepsRecoverable(log, d0, r, m);
    if j == m < r.at {
      StaleIffBehind(log, d0, restored, m);
      ReplayedData(log, restored.fsm, m, n);
      SkippedExact(log, d0, m, m + 1, n);
    } else {
      var r' := DeliverRange(log, d0, restored, j, n);
    }
  }
}
