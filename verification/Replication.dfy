/** Replicated acknowledgement: nodes that store, probe and push to one another over a
    network that may lose any answer, with every interleaving of any number of puts. */
module Replication {
  import opened Core
  import opened Digests

  datatype Mode = WriteOnly | Lru

  datatype Peer = Peer(url: string, durable: bool)

  /** `durable` lists each node's durable peers in order; `reach` is where a URL leads.
      `factor` is the number of copies each node wants of a write. */
  datatype Config = Config(
    modes: seq<Mode>,
    factor: seq<nat>,
    durable: seq<seq<string>>,
    reach: string -> Option<nat>)

  ghost predicate Formed(c: Config) {
    && |c.factor| == |c.modes| == |c.durable|
    && (forall n :: 0 <= n < |c.modes| ==> c.factor[n] >= 1)
    && (forall u :: c.reach(u).Some? ==> c.reach(u).value < |c.modes|)
  }

  /** Where a put stands. `next` is the peer whose turn it is; `yes` are the peers, by
      position, that confirmed a durable copy. */
  datatype Phase =
    | Storing
    | Probing(next: nat, yes: set<nat>)
    | Sending(next: nat, yes: set<nat>)
    | Reprobing(next: nat, yes: set<nat>)
    | Acked(yes: set<nat>)
    | Failed

  datatype Put = Put(node: nat, digest: Digest, phase: Phase)

  datatype State = State(held: seq<set<Digest>>, puts: seq<Put>)

  datatype Action =
    | Begin(node: nat, digest: Digest)
    | Ensure(node: nat, digest: Digest)
    | Store(i: nat)
    | Probe(i: nat, answer: bool)
    | Send(i: nat, stored: bool, answer: bool)
    | Reprobe(i: nat, answer: bool)
    | Finish(i: nat)
    | Abort(i: nat)
    | Evict(node: nat, digest: Digest)

  /** Copies a write-only node waits for beyond its own; a cache waits for none. */
  function Target(c: Config, n: nat): nat
    requires Formed(c) && n < |c.modes|
  {
    if c.modes[n].Lru? then 0 else c.factor[n] - 1
  }

  /** What a probe of `url` truthfully answers: a copy is there, and its holder never drops one. */
  predicate HoldsDurably(c: Config, s: State, url: string, d: Digest) {
    match c.reach(url)
    case None => false
    case Some(m) => m < |c.modes| && m < |s.held| && c.modes[m].WriteOnly? && d in s.held[m]
  }

  ghost predicate InRange(c: Config, s: State) {
    && Formed(c) && |s.held| == |c.modes|
    && forall i :: 0 <= i < |s.puts| ==> s.puts[i].node < |c.modes|
  }

  /** `Ensure` replicates anew what a node with peers to wait for already holds; without such
      peers it does nothing. The network may lose an answer, so a probe can only err towards "no"; a stored push may
      look failed, but a push that looks stored is. */
  ghost predicate Enabled(c: Config, s: State, a: Action) {
    && InRange(c, s)
    && match a
       case Begin(n, _) => n < |c.modes|
       case Ensure(n, d) => n < |c.modes| && Target(c, n) > 0 && d in s.held[n]
       case Store(i) => i < |s.puts| && s.puts[i].phase.Storing?
       case Probe(i, answer) =>
         && i < |s.puts| && s.puts[i].phase.Probing?
         && var p := s.puts[i];
            && p.phase.next < |c.durable[p.node]| && |p.phase.yes| < Target(c, p.node)
            && (answer ==> HoldsDurably(c, s, c.durable[p.node][p.phase.next], p.digest))
       case Send(i, stored, answer) =>
         && i < |s.puts| && s.puts[i].phase.Sending?
         && var p := s.puts[i];
            && p.phase.next < |c.durable[p.node]|
            && (stored ==> c.reach(c.durable[p.node][p.phase.next]).Some?)
            && (answer ==> stored)
       case Reprobe(i, answer) =>
         && i < |s.puts| && s.puts[i].phase.Reprobing?
         && var p := s.puts[i];
            && p.phase.next < |c.durable[p.node]|
            && (answer ==> HoldsDurably(c, s, c.durable[p.node][p.phase.next], p.digest))
       case Finish(i) =>
         && i < |s.puts| && s.puts[i].phase.Probing?
         && var p := s.puts[i];
            |p.phase.yes| >= Target(c, p.node) || p.phase.next >= |c.durable[p.node]|
       case Abort(i) => i < |s.puts| && !s.puts[i].phase.Acked?
       case Evict(n, _) => n < |c.modes| && c.modes[n].Lru?
  }

  function Move(s: State, i: nat, phase: Phase): State
    requires i < |s.puts|
  {
    s.(puts := s.puts[i := s.puts[i].(phase := phase)])
  }

  /** `put_keyed_local`: one node gains a copy, and nothing else happens. */
  function StoreAt(s: State, n: nat, d: Digest): State
    requires n < |s.held|
  {
    s.(held := s.held[n := s.held[n] + {d}])
  }

  ghost function Next(c: Config, s: State, a: Action): State
    requires Enabled(c, s, a)
  {
    match a
    case Begin(n, d) => s.(puts := s.puts + [Put(n, d, Storing)])
    case Ensure(n, d) => s.(puts := s.puts + [Put(n, d, Probing(0, {}))])
    case Store(i) => Move(StoreAt(s, s.puts[i].node, s.puts[i].digest), i, Probing(0, {}))
    case Probe(i, answer) =>
      var p := s.puts[i].phase;
      if answer then Move(s, i, Probing(p.next + 1, p.yes + {p.next})) else Move(s, i, Sending(p.next, p.yes))
    case Send(i, stored, answer) =>
      var p := s.puts[i];
      var s' := if stored then StoreAt(s, c.reach(c.durable[p.node][p.phase.next]).value, p.digest) else s;
      if answer then Move(s', i, Reprobing(p.phase.next, p.phase.yes))
      else Move(s', i, Probing(p.phase.next + 1, p.phase.yes))
    case Reprobe(i, answer) =>
      var p := s.puts[i].phase;
      Move(s, i, Probing(p.next + 1, if answer then p.yes + {p.next} else p.yes))
    case Finish(i) =>
      var p := s.puts[i];
      Move(s, i, if |p.phase.yes| >= Target(c, p.node) then Acked(p.phase.yes) else Failed)
    case Abort(i) => Move(s, i, Failed)
    case Evict(n, d) => s.(held := s.held[n := s.held[n] - {d}])
  }

  // ---- What every reachable state keeps ----

  /** The write-only nodes that hold `d`. */
  ghost function Holders(c: Config, s: State, d: Digest): set<nat> {
    set m | 0 <= m < |c.modes| && m < |s.held| && c.modes[m].WriteOnly? && d in s.held[m]
  }

  predicate HasYes(p: Phase) {
    p.Probing? || p.Sending? || p.Reprobing? || p.Acked?
  }

  /** A put past its local write is held here, and every peer it counted still holds a copy. */
  ghost predicate Sound(c: Config, s: State, p: Put)
    requires InRange(c, s) && p.node < |c.modes|
  {
    HasYes(p.phase) ==>
      && (c.modes[p.node].WriteOnly? ==> p.digest in s.held[p.node])
      && (forall j | j in p.phase.yes ::
            j < |c.durable[p.node]| && HoldsDurably(c, s, c.durable[p.node][j], p.digest))
      && |p.phase.yes| <= Target(c, p.node)
      && (!p.phase.Acked? ==> forall j | j in p.phase.yes :: j < p.phase.next)
      && (p.phase.Sending? || p.phase.Reprobing? ==> |p.phase.yes| < Target(c, p.node))
      && (p.phase.Acked? ==> |p.phase.yes| == Target(c, p.node))
  }

  ghost predicate Inv(c: Config, s: State) {
    InRange(c, s) && forall i :: 0 <= i < |s.puts| ==> Sound(c, s, s.puts[i])
  }

  /** Copies on write-only nodes only grow. */
  lemma HoldersGrow(c: Config, s: State, a: Action)
    requires Enabled(c, s, a)
    ensures |Next(c, s, a).held| == |s.held|
    ensures forall m :: 0 <= m < |s.held| && c.modes[m].WriteOnly? ==> s.held[m] <= Next(c, s, a).held[m]
  {
  }

  lemma StillSound(c: Config, s: State, s': State, p: Put)
    requires InRange(c, s) && InRange(c, s') && p.node < |c.modes| && Sound(c, s, p)
    requires forall m :: 0 <= m < |s.held| && c.modes[m].WriteOnly? ==> s.held[m] <= s'.held[m]
    ensures Sound(c, s', p)
  {
  }

  lemma ProbeSound(c: Config, s: State, i: nat, answer: bool)
    requires Enabled(c, s, Probe(i, answer)) && Inv(c, s)
    ensures Sound(c, s, Next(c, s, Probe(i, answer)).puts[i])
  {
    assert Sound(c, s, s.puts[i]);
  }

  lemma ReprobeSound(c: Config, s: State, i: nat, answer: bool)
    requires Enabled(c, s, Reprobe(i, answer)) && Inv(c, s)
    ensures Sound(c, s, Next(c, s, Reprobe(i, answer)).puts[i])
  {
    assert Sound(c, s, s.puts[i]);
  }

  lemma SendSound(c: Config, s: State, i: nat, stored: bool, answer: bool)
    requires Enabled(c, s, Send(i, stored, answer)) && Inv(c, s)
    ensures Sound(c, s, Next(c, s, Send(i, stored, answer)).puts[i])
  {
    assert Sound(c, s, s.puts[i]);
  }

  lemma EndSound(c: Config, s: State, a: Action)
    requires a.Finish? || a.Abort?
    requires Enabled(c, s, a) && Inv(c, s)
    ensures Sound(c, s, Next(c, s, a).puts[a.i])
  {
    assert Sound(c, s, s.puts[a.i]);
  }

  /** The put an action moves. */
  lemma MovedSound(c: Config, s: State, a: Action)
    requires Enabled(c, s, a) && Inv(c, s)
    requires !a.Begin? && !a.Ensure? && !a.Evict?
    ensures InRange(c, Next(c, s, a)) && Sound(c, Next(c, s, a), Next(c, s, a).puts[a.i])
  {
    var s' := Next(c, s, a);
    HoldersGrow(c, s, a);
    if !a.Store? {
      match a {
        case Probe(i, answer) => ProbeSound(c, s, i, answer);
        case Reprobe(i, answer) => ReprobeSound(c, s, i, answer);
        case Send(i, stored, answer) => SendSound(c, s, i, stored, answer);
        case _ => EndSound(c, s, a);
      }
      StillSound(c, s, s', s'.puts[a.i]);
    }
  }

  lemma InvStep(c: Config, s: State, a: Action)
    requires Enabled(c, s, a) && Inv(c, s)
    ensures Inv(c, Next(c, s, a))
  {
    var s' := Next(c, s, a);
    HoldersGrow(c, s, a);
    if !a.Begin? && !a.Ensure? && !a.Evict? {
      MovedSound(c, s, a);
    }
    assert InRange(c, s');
    forall i | 0 <= i < |s'.puts| ensures Sound(c, s', s'.puts[i]) {
      if i < |s.puts| && s'.puts[i] == s.puts[i] {
        StillSound(c, s, s', s.puts[i]);
      }
    }
  }

  // ---- Whole runs ----

  /** Any copies anywhere, no put under way. */
  ghost predicate Init(c: Config, s: State) {
    Formed(c) && |s.held| == |c.modes| && s.puts == []
  }

  ghost predicate Runs(c: Config, s: State, acts: seq<Action>)
    decreases |acts|
  {
    |acts| == 0 || (Enabled(c, s, acts[0]) && Runs(c, Next(c, s, acts[0]), acts[1..]))
  }

  ghost function After(c: Config, s: State, acts: seq<Action>): State
    requires Runs(c, s, acts)
    decreases |acts|
  {
    if |acts| == 0 then s else After(c, Next(c, s, acts[0]), acts[1..])
  }

  lemma {:induction false} InvHolds(c: Config, s: State, acts: seq<Action>)
    requires Inv(c, s) && Runs(c, s, acts)
    ensures Inv(c, After(c, s, acts))
    decreases |acts|
  {
    if |acts| > 0 {
      InvStep(c, s, acts[0]);
      InvHolds(c, Next(c, s, acts[0]), acts[1..]);
    }
  }

  /** Every durable copy is still there in every later state. */
  lemma {:induction false} HoldersStay(c: Config, s: State, acts: seq<Action>, d: Digest)
    requires InRange(c, s) && Runs(c, s, acts)
    ensures Holders(c, s, d) <= Holders(c, After(c, s, acts), d)
    decreases |acts|
  {
    if |acts| > 0 {
      HoldersGrow(c, s, acts[0]);
      HoldersStay(c, Next(c, s, acts[0]), acts[1..], d);
    }
  }

  /** An acknowledged put stays acknowledged, so what an acknowledgement promises holds in
      every later state too. */
  lemma {:induction false} AckStays(c: Config, s: State, acts: seq<Action>, n: nat, d: Digest)
    requires Runs(c, s, acts) && AckedBy(s, n, d)
    ensures AckedBy(After(c, s, acts), n, d)
    decreases |acts|
  {
    if |acts| > 0 {
      var i :| 0 <= i < |s.puts| && s.puts[i].node == n && s.puts[i].digest == d && s.puts[i].phase.Acked?;
      var s' := Next(c, s, acts[0]);
      assert s'.puts[i] == s.puts[i];
      AckStays(c, s', acts[1..], n, d);
    }
  }

  // ---- A push never fans out ----

  /** How many pushes a run makes. */
  function Sends(acts: seq<Action>): nat {
    if |acts| == 0 then 0 else (if acts[0].Send? then 1 else 0) + Sends(acts[1..])
  }

  function Peers(c: Config, n: nat): nat {
    if n < |c.durable| then |c.durable[n]| else 0
  }

  /** The durable peers of every node at which a put was begun, a node counting once for each
      put begun there. */
  function Allowance(c: Config, acts: seq<Action>): nat {
    if |acts| == 0 then 0
    else (if acts[0].Begin? || acts[0].Ensure? then Peers(c, acts[0].node) else 0) + Allowance(c, acts[1..])
  }

  /** The peers a put has done with, at least as many as it pushed to. */
  function Passed(c: Config, p: Put): nat {
    match p.phase
    case Storing => 0
    case Probing(next, _) => next
    case Sending(next, _) => next
    case Reprobing(next, _) => next + 1
    case _ => Peers(c, p.node)
  }

  function AllPassed(c: Config, puts: seq<Put>): nat {
    if |puts| == 0 then 0 else AllPassed(c, puts[..|puts| - 1]) + Passed(c, puts[|puts| - 1])
  }

  function AllPeers(c: Config, puts: seq<Put>): nat {
    if |puts| == 0 then 0 else AllPeers(c, puts[..|puts| - 1]) + Peers(c, puts[|puts| - 1].node)
  }

  ghost predicate Bounded(c: Config, puts: seq<Put>) {
    forall i :: 0 <= i < |puts| ==> Passed(c, puts[i]) <= Peers(c, puts[i].node)
  }

  lemma {:induction false} PassedUpdate(c: Config, puts: seq<Put>, i: nat, p: Put)
    requires i < |puts| && p.node == puts[i].node
    ensures AllPassed(c, puts[i := p]) == AllPassed(c, puts) - Passed(c, puts[i]) + Passed(c, p)
    ensures AllPeers(c, puts[i := p]) == AllPeers(c, puts)
  {
    var n := |puts| - 1;
    if i == n {
      assert puts[i := p][..n] == puts[..n];
    } else {
      PassedUpdate(c, puts[..n], i, p);
      assert puts[i := p][..n] == puts[..n][i := p];
    }
  }

  lemma {:induction false} PassedBounded(c: Config, puts: seq<Put>)
    requires Bounded(c, puts)
    ensures AllPassed(c, puts) <= AllPeers(c, puts)
  {
    if |puts| > 0 {
      PassedBounded(c, puts[..|puts| - 1]);
    }
  }

  /** A put that moves is done with no fewer peers than before, with one more if it pushed. */
  lemma PutMoves(c: Config, s: State, a: Action)
    requires Enabled(c, s, a) && !a.Begin? && !a.Ensure? && !a.Evict?
    requires Passed(c, s.puts[a.i]) <= Peers(c, s.puts[a.i].node)
    ensures var s' := Next(c, s, a); var was, now := s.puts[a.i], s'.puts[a.i];
            && s'.puts == s.puts[a.i := now] && now.node == was.node && now.digest == was.digest
            && Passed(c, was) + (if a.Send? then 1 else 0) <= Passed(c, now) <= Peers(c, now.node)
  {
  }

  lemma PushStep(c: Config, s: State, a: Action)
    requires Enabled(c, s, a) && Bounded(c, s.puts)
    ensures var s' := Next(c, s, a);
            && Bounded(c, s'.puts)
            && AllPassed(c, s.puts) + (if a.Send? then 1 else 0) <= AllPassed(c, s'.puts)
            && AllPeers(c, s'.puts) == AllPeers(c, s.puts) + (if a.Begin? || a.Ensure? then Peers(c, a.node) else 0)
  {
    var s' := Next(c, s, a);
    if a.Begin? || a.Ensure? {
      assert s'.puts[..|s.puts|] == s.puts;
    } else if !a.Evict? {
      PutMoves(c, s, a);
      PassedUpdate(c, s.puts, a.i, s'.puts[a.i]);
    }
  }

  lemma {:induction false} PushesCounted(c: Config, s: State, acts: seq<Action>)
    requires Runs(c, s, acts) && Bounded(c, s.puts)
    ensures var s' := After(c, s, acts);
            && AllPassed(c, s.puts) + Sends(acts) <= AllPassed(c, s'.puts) <= AllPeers(c, s'.puts)
            && AllPeers(c, s'.puts) == AllPeers(c, s.puts) + Allowance(c, acts)
    decreases |acts|
  {
    if |acts| == 0 {
      PassedBounded(c, s.puts);
    } else {
      PushStep(c, s, acts[0]);
      PushesCounted(c, Next(c, s, acts[0]), acts[1..]);
    }
  }

  /** In every run there are at most as many pushes as the nodes where puts were begun have
      durable peers: what a push stores causes no push of its own. */
  lemma PushesNeverFanOut(c: Config, s0: State, acts: seq<Action>)
    requires Init(c, s0) && Runs(c, s0, acts)
    ensures Sends(acts) <= Allowance(c, acts)
  {
    PushesCounted(c, s0, acts);
  }

  /** `m` is where some durable peer of `n` leads. */
  predicate Reaches(c: Config, n: nat, m: nat) {
    n < |c.durable| && exists j :: 0 <= j < |c.durable[n]| && c.reach(c.durable[n][j]) == Some(m)
  }

  predicate Started(acts: seq<Action>, n: nat, d: Digest) {
    Begin(n, d) in acts || Ensure(n, d) in acts
  }

  ghost predicate Pending(puts: seq<Put>, n: nat, d: Digest) {
    exists i :: 0 <= i < |puts| && puts[i].node == n && puts[i].digest == d
  }

  /** A copy of `d` at `m` is due to a put begun there, or to a push by one begun elsewhere. */
  ghost predicate Due(c: Config, puts: seq<Put>, acts: seq<Action>, m: nat, d: Digest) {
    || Begin(m, d) in acts || Pending(puts, m, d)
    || exists n :: (Started(acts, n, d) || Pending(puts, n, d)) && Reaches(c, n, m)
  }

  lemma CopyStep(c: Config, s: State, a: Action, m: nat, d: Digest)
    requires Enabled(c, s, a)
    ensures Has(Next(c, s, a), m, d) ==> Has(s, m, d) || Due(c, s.puts, [a], m, d)
  {
    if a.Send? && a.stored {
      var p := s.puts[a.i];
      assert Pending(s.puts, p.node, p.digest);
      assert c.reach(c.durable[p.node][p.phase.next]).Some?;
    }
  }

  lemma PendingStep(c: Config, s: State, a: Action, n: nat, d: Digest)
    requires Enabled(c, s, a) && Pending(Next(c, s, a).puts, n, d)
    ensures Pending(s.puts, n, d) || Started([a], n, d)
  {
    var s' := Next(c, s, a);
    var i :| 0 <= i < |s'.puts| && s'.puts[i].node == n && s'.puts[i].digest == d;
    if i < |s.puts| {
      assert s.puts[i].node == n && s.puts[i].digest == d;
    }
  }

  predicate Has(s: State, m: nat, d: Digest) {
    m < |s.held| && d in s.held[m]
  }

  lemma {:induction false} CopiesDue(c: Config, s: State, acts: seq<Action>, m: nat, d: Digest)
    requires Runs(c, s, acts) && Has(After(c, s, acts), m, d)
    ensures Has(s, m, d) || Due(c, s.puts, acts, m, d)
    decreases |acts|
  {
    if |acts| > 0 {
      var a, s', rest := acts[0], Next(c, s, acts[0]), acts[1..];
      assert acts == [a] + rest;
      CopiesDue(c, s', rest, m, d);
      if Has(s', m, d) {
        CopyStep(c, s, a, m, d);
        DueLonger(c, s.puts, [a], rest, m, d);
      } else {
        DueEarlier(c, s, a, rest, m, d);
      }
    }
  }

  lemma DueLonger(c: Config, puts: seq<Put>, acts: seq<Action>, rest: seq<Action>, m: nat, d: Digest)
    ensures Due(c, puts, acts, m, d) ==> Due(c, puts, acts + rest, m, d)
  {
    forall n | Started(acts, n, d) ensures Started(acts + rest, n, d) {
    }
  }

  lemma DueEarlier(c: Config, s: State, a: Action, rest: seq<Action>, m: nat, d: Digest)
    requires Enabled(c, s, a) && Due(c, Next(c, s, a).puts, rest, m, d)
    ensures Has(s, m, d) || Due(c, s.puts, [a] + rest, m, d)
  {
    forall n | Pending(Next(c, s, a).puts, n, d) ensures Pending(s.puts, n, d) || Started([a] + rest, n, d) {
      PendingStep(c, s, a, n, d);
    }
  }

  /** In every run, a copy that was not there at the start is due to a put begun at that node,
      or to a push by a put begun at a node that has it as a durable peer. */
  lemma EveryCopyIsDue(c: Config, s0: State, acts: seq<Action>, m: nat, d: Digest)
    requires Init(c, s0) && Runs(c, s0, acts) && m < |s0.held| && d !in s0.held[m]
    requires m < |After(c, s0, acts).held| && d in After(c, s0, acts).held[m]
    ensures || Begin(m, d) in acts
            || exists n: nat, j :: && (Begin(n, d) in acts || Ensure(n, d) in acts)
                                   && n < |c.durable| && 0 <= j < |c.durable[n]| && c.reach(c.durable[n][j]) == Some(m)
  {
    CopiesDue(c, s0, acts, m, d);
    if Begin(m, d) !in acts {
      var n: nat :| Started(acts, n, d) && Reaches(c, n, m);
      var j :| 0 <= j < |c.durable[n]| && c.reach(c.durable[n][j]) == Some(m);
      assert Begin(n, d) in acts || Ensure(n, d) in acts;
    }
  }

  // ---- When an acknowledgement means R copies ----

  /** The durable peer at position `j` of node `n` leads to a write-only node. */
  predicate Permanent(c: Config, n: nat, j: nat)
    requires n < |c.durable| && j < |c.durable[n]|
  {
    match c.reach(c.durable[n][j])
    case None => false
    case Some(m) => m < |c.modes| && c.modes[m].WriteOnly?
  }

  predicate AllPermanent(c: Config, n: nat, js: set<nat>) {
    n < |c.durable| && forall j | j in js :: j < |c.durable[n]| && Permanent(c, n, j)
  }

  function Lead(c: Config, n: nat, j: nat): nat
    requires n < |c.durable| && j < |c.durable[n]| && Permanent(c, n, j)
  {
    c.reach(c.durable[n][j]).value
  }

  function NodesAt(c: Config, n: nat, js: set<nat>): set<nat>
    requires AllPermanent(c, n, js)
  {
    set j | j in js :: Lead(c, n, j)
  }

  /** Any peers whose word would be enough are that many different nodes, and none is `n`. */
  ghost predicate Spread(c: Config, n: nat)
    requires Formed(c) && n < |c.modes|
  {
    forall js: set<nat> | AllPermanent(c, n, js) && |js| == Target(c, n) ::
      n !in NodesAt(c, n, js) && |NodesAt(c, n, js)| == |js|
  }

  ghost predicate AckedBy(s: State, n: nat, d: Digest) {
    exists i :: 0 <= i < |s.puts| && s.puts[i].node == n && s.puts[i].digest == d && s.puts[i].phase.Acked?
  }

  /** Whenever `n` has acknowledged a put, `factor` distinct write-only nodes hold the blob. */
  ghost predicate Replicates(c: Config, n: nat)
    requires Formed(c) && n < |c.modes|
  {
    forall s0, acts, d | Init(c, s0) && Runs(c, s0, acts) && AckedBy(After(c, s0, acts), n, d) ::
      |Holders(c, After(c, s0, acts), d)| >= c.factor[n]
  }

  lemma AckMeansCopies(c: Config, s: State, n: nat, d: Digest)
    requires Inv(c, s) && n < |c.modes| && c.modes[n].WriteOnly? && Spread(c, n) && AckedBy(s, n, d)
    ensures |Holders(c, s, d)| >= c.factor[n]
  {
    var i :| 0 <= i < |s.puts| && s.puts[i].node == n && s.puts[i].digest == d && s.puts[i].phase.Acked?;
    assert Sound(c, s, s.puts[i]);
    var js := s.puts[i].phase.yes;
    var nodes := NodesAt(c, n, js);
    assert nodes + {n} <= Holders(c, s, d);
    SubsetSize(nodes + {n}, Holders(c, s, d));
  }

  // ---- A run that acknowledges on the word of any chosen peers ----

  lemma {:induction false} RunSnoc(c: Config, s: State, acts: seq<Action>, a: Action)
    requires Runs(c, s, acts) && Enabled(c, After(c, s, acts), a)
    ensures Runs(c, s, acts + [a]) && After(c, s, acts + [a]) == Next(c, After(c, s, acts), a)
    decreases |acts|
  {
    if |acts| == 0 {
      assert (acts + [a])[1..] == [];
    } else {
      RunSnoc(c, Next(c, s, acts[0]), acts[1..], a);
      assert (acts + [a])[1..] == acts[1..] + [a];
    }
  }

  function Below(js: set<nat>, q: nat): set<nat> {
    set j | j in js && j < q
  }

  /** The one put of the run, with the first `q` peers asked and only those in `js` answering. */
  ghost predicate Asked(c: Config, s: State, n: nat, d: Digest, js: set<nat>, q: nat)
    requires AllPermanent(c, n, js)
  {
    && InRange(c, s)
    && s.puts == [Put(n, d, Probing(q, Below(js, q)))]
    && forall m :: 0 <= m < |s.held| ==> (d in s.held[m] <==> m == n || m in NodesAt(c, n, Below(js, q)))
  }

  /** The state after the peer at position `q` stored the blob and said so. */
  function Confirmed(s: State, n: nat, d: Digest, yes: set<nat>, q: nat, m: nat): State
    requires m < |s.held|
  {
    State(s.held[m := s.held[m] + {d}], [Put(n, d, Probing(q + 1, yes + {q}))])
  }

  /** The peer at position `q` stores the blob and says so: three steps of the put. */
  lemma StepsYes(c: Config, s: State, n: nat, d: Digest, yes: set<nat>, q: nat)
    requires InRange(c, s) && n < |c.modes| && s.puts == [Put(n, d, Probing(q, yes))]
    requires q < |c.durable[n]| && |yes| < Target(c, n)
    requires Permanent(c, n, q)
    ensures Enabled(c, s, Probe(0, false))
    ensures var s1 := Next(c, s, Probe(0, false));
            && Enabled(c, s1, Send(0, true, true))
            && var s2 := Next(c, s1, Send(0, true, true));
               && Enabled(c, s2, Reprobe(0, true))
               && Next(c, s2, Reprobe(0, true)) == Confirmed(s, n, d, yes, q, Lead(c, n, q))
  {
    var s1 := Next(c, s, Probe(0, false));
    assert s1 == State(s.held, [Put(n, d, Sending(q, yes))]);
    var s2 := Next(c, s1, Send(0, true, true));
    assert s2.puts == [Put(n, d, Reprobing(q, yes))];
  }

  lemma AskedMore(c: Config, s: State, n: nat, d: Digest, js: set<nat>, q: nat)
    requires AllPermanent(c, n, js) && Asked(c, s, n, d, js, q) && q in js
    ensures Asked(c, Confirmed(s, n, d, Below(js, q), q, Lead(c, n, q)), n, d, js, q + 1)
  {
    assert Below(js, q + 1) == Below(js, q) + {q};
    assert NodesAt(c, n, Below(js, q + 1)) == NodesAt(c, n, Below(js, q)) + {Lead(c, n, q)};
  }

  lemma AskYes(c: Config, s0: State, acts: seq<Action>, n: nat, d: Digest, js: set<nat>, q: nat) returns (more: seq<Action>)
    requires Runs(c, s0, acts) && n < |c.modes| && AllPermanent(c, n, js) && Asked(c, After(c, s0, acts), n, d, js, q)
    requires q in js && |js| == Target(c, n)
    ensures Runs(c, s0, more) && Asked(c, After(c, s0, more), n, d, js, q + 1)
  {
    var s := After(c, s0, acts);
    SubsetSize(Below(js, q), js - {q});
    StepsYes(c, s, n, d, Below(js, q), q);
    AskedMore(c, s, n, d, js, q);
    RunSnoc(c, s0, acts, Probe(0, false));
    more := acts + [Probe(0, false)];
    RunSnoc(c, s0, more, Send(0, true, true));
    more := more + [Send(0, true, true)];
    RunSnoc(c, s0, more, Reprobe(0, true));
    more := more + [Reprobe(0, true)];
  }

  /** Pass over the peer at position `q`, which cannot be reached. */
  lemma AskNo(c: Config, s0: State, acts: seq<Action>, n: nat, d: Digest, js: set<nat>, q: nat) returns (more: seq<Action>)
    requires Runs(c, s0, acts) && n < |c.modes| && AllPermanent(c, n, js) && Asked(c, After(c, s0, acts), n, d, js, q)
    requires q !in js && q < |c.durable[n]| && |Below(js, q)| < Target(c, n)
    ensures Runs(c, s0, more) && Asked(c, After(c, s0, more), n, d, js, q + 1)
  {
    assert Below(js, q + 1) == Below(js, q);
    RunSnoc(c, s0, acts, Probe(0, false));
    more := acts + [Probe(0, false)];
    RunSnoc(c, s0, more, Send(0, false, false));
    more := more + [Send(0, false, false)];
  }

  /** Ask on until every peer in `js` has answered. */
  lemma {:induction false} AskAll(c: Config, s0: State, acts: seq<Action>, n: nat, d: Digest, js: set<nat>, q: nat)
    returns (more: seq<Action>, last: nat)
    requires Runs(c, s0, acts) && n < |c.modes| && AllPermanent(c, n, js) && Asked(c, After(c, s0, acts), n, d, js, q)
    requires q <= |c.durable[n]| && |js| == Target(c, n)
    ensures Runs(c, s0, more) && Asked(c, After(c, s0, more), n, d, js, last) && Below(js, last) == js
    decreases |c.durable[n]| - q
  {
    if Below(js, q) == js {
      more, last := acts, q;
    } else {
      var j :| j in js && j !in Below(js, q);
      SubsetSize(Below(js, q), js - {j});
      if q in js {
        more := AskYes(c, s0, acts, n, d, js, q);
      } else {
        more := AskNo(c, s0, acts, n, d, js, q);
      }
      more, last := AskAll(c, s0, more, n, d, js, q + 1);
    }
  }

  /** Whichever peers `js` a node would settle for, some run acknowledges with no copies but
      theirs and the node's own. */
  lemma AckOnTheirWord(c: Config, n: nat, d: Digest, js: set<nat>) returns (s0: State, acts: seq<Action>)
    requires Formed(c) && n < |c.modes| && AllPermanent(c, n, js) && |js| == Target(c, n)
    ensures Init(c, s0) && Runs(c, s0, acts) && AckedBy(After(c, s0, acts), n, d)
    ensures Holders(c, After(c, s0, acts), d) <= NodesAt(c, n, js) + {n}
  {
    s0 := State(seq(|c.modes|, _ => {}), []);
    acts := [];
    RunSnoc(c, s0, acts, Begin(n, d));
    acts := acts + [Begin(n, d)];
    RunSnoc(c, s0, acts, Store(0));
    acts := acts + [Store(0)];
    assert Below(js, 0) == {};
    var last;
    acts, last := AskAll(c, s0, acts, n, d, js, 0);
    RunSnoc(c, s0, acts, Finish(0));
    acts := acts + [Finish(0)];
    assert After(c, s0, acts).puts[0].phase.Acked?;
  }

  /** A cache acknowledges its own write, whatever its peers. */
  lemma CacheAcksAlone(c: Config, s: State, n: nat, d: Digest)
    requires InRange(c, s) && n < |c.modes| && c.modes[n].Lru?
    ensures var k := |s.puts|;
            var acts := [Begin(n, d), Store(k), Finish(k)];
            && Runs(c, s, acts)
            && After(c, s, acts) == State(s.held[n := s.held[n] + {d}], s.puts + [Put(n, d, Acked({}))])
  {
    var k := |s.puts|;
    var a, b, e := Begin(n, d), Store(k), Finish(k);
    var held := s.held[n := s.held[n] + {d}];
    var s1 := State(s.held, s.puts + [Put(n, d, Storing)]);
    var s2 := State(held, s.puts + [Put(n, d, Probing(0, {}))]);
    var s3 := State(held, s.puts + [Put(n, d, Acked({}))]);
    assert Next(c, s, a) == s1 && InRange(c, s1);
    assert Next(c, s1, b) == s2 && InRange(c, s2);
    assert Next(c, s2, e) == s3;
    RunSnoc(c, s, [], a);
    RunSnoc(c, s, [] + [a], b);
    RunSnoc(c, s, [] + [a] + [b], e);
    assert [] + [a] + [b] + [e] == [a, b, e];
  }

  function Firsts(k: nat): set<nat> {
    if k == 0 then {} else Firsts(k - 1) + {k - 1}
  }

  lemma {:induction false} FirstsSize(k: nat)
    ensures |Firsts(k)| == k && forall j :: j in Firsts(k) ==> j < k
  {
    if k > 0 {
      FirstsSize(k - 1);
    }
  }

  /** The first peers hold a durable copy each, as many as `n` waits for. */
  ghost predicate Covered(c: Config, s: State, n: nat, d: Digest)
    requires Formed(c) && n < |c.modes|
  {
    Target(c, n) <= |c.durable[n]| && forall j :: 0 <= j < Target(c, n) ==> HoldsDurably(c, s, c.durable[n][j], d)
  }

  /** The put at `i` has the word of the first `q` peers. */
  ghost predicate AtProbe(c: Config, s: State, i: nat, q: nat) {
    && InRange(c, s) && i < |s.puts| && s.puts[i].phase == Probing(q, Firsts(q))
    && q <= Target(c, s.puts[i].node) && Covered(c, s, s.puts[i].node, s.puts[i].digest)
  }

  lemma ProbeYes(c: Config, s: State, i: nat, q: nat)
    requires AtProbe(c, s, i, q) && q < Target(c, s.puts[i].node)
    ensures Enabled(c, s, Probe(i, true))
    ensures Next(c, s, Probe(i, true)) == Move(s, i, Probing(q + 1, Firsts(q + 1)))
    ensures AtProbe(c, Move(s, i, Probing(q + 1, Firsts(q + 1))), i, q + 1)
  {
    FirstsSize(q);
  }

  lemma ProbesDone(c: Config, s: State, i: nat, q: nat)
    requires AtProbe(c, s, i, q) && q == Target(c, s.puts[i].node)
    ensures Enabled(c, s, Finish(i)) && Next(c, s, Finish(i)) == Move(s, i, Acked(Firsts(q)))
    ensures Runs(c, s, [Finish(i)]) && After(c, s, [Finish(i)]) == Next(c, s, Finish(i))
  {
    FirstsSize(q);
    assert [Finish(i)][1..] == [];
  }

  lemma {:induction false} ProbesSuffice(c: Config, s: State, i: nat, q: nat) returns (acts: seq<Action>)
    requires AtProbe(c, s, i, q)
    ensures Runs(c, s, acts) && Sends(acts) == 0 && |acts| == Target(c, s.puts[i].node) - q + 1
    ensures After(c, s, acts) == Move(s, i, Acked(Firsts(Target(c, s.puts[i].node))))
    decreases Target(c, s.puts[i].node) - q
  {
    if q == Target(c, s.puts[i].node) {
      ProbesDone(c, s, i, q);
      acts := [Finish(i)];
      assert acts[1..] == [];
    } else {
      ProbeYes(c, s, i, q);
      var s' := Move(s, i, Probing(q + 1, Firsts(q + 1)));
      var rest := ProbesSuffice(c, s', i, q + 1);
      acts := [Probe(i, true)] + rest;
      assert acts[1..] == rest;
    }
  }

  /** Asked again for what its peers already hold, a node acknowledges anew on their word
      alone, with one probe each and no push. */
  lemma EnsureNeedsNoPush(c: Config, s: State, n: nat, d: Digest) returns (acts: seq<Action>)
    requires InRange(c, s) && n < |c.modes| && Target(c, n) > 0 && d in s.held[n] && Covered(c, s, n, d)
    ensures Runs(c, s, [Ensure(n, d)] + acts) && Sends([Ensure(n, d)] + acts) == 0 && |acts| == Target(c, n) + 1
    ensures var s' := After(c, s, [Ensure(n, d)] + acts); s'.held == s.held && AckedBy(s', n, d)
  {
    var s' := Next(c, s, Ensure(n, d));
    assert Firsts(0) == {};
    acts := ProbesSuffice(c, s', |s.puts|, 0);
    assert ([Ensure(n, d)] + acts)[1..] == acts;
    assert After(c, s', acts).puts[|s.puts|].phase.Acked?;
  }

  lemma {:induction false} NodesNoMore(c: Config, n: nat, js: set<nat>)
    requires AllPermanent(c, n, js)
    ensures |NodesAt(c, n, js)| <= |js|
  {
    if js != {} {
      var j :| j in js;
      NodesNoMore(c, n, js - {j});
      assert NodesAt(c, n, js) == NodesAt(c, n, js - {j}) + {Lead(c, n, j)};
    }
  }

  /** An acknowledgement means `factor` distinct durable copies exactly when the peers whose
      word suffices are always that many different nodes, none of them the node itself. The
      configured list only rules out a URL written twice, so two names for one node, or an
      unadvertised name for this one, break the promise. */
  lemma ReplicationExact(c: Config, n: nat)
    requires Formed(c) && n < |c.modes| && c.modes[n].WriteOnly?
    ensures Replicates(c, n) <==> Spread(c, n)
  {
    if Spread(c, n) {
      forall s0, acts, d | Init(c, s0) && Runs(c, s0, acts) && AckedBy(After(c, s0, acts), n, d)
        ensures |Holders(c, After(c, s0, acts), d)| >= c.factor[n]
      {
        InvHolds(c, s0, acts);
        AckMeansCopies(c, After(c, s0, acts), n, d);
      }
    }
    if Replicates(c, n) {
      forall js: set<nat> | AllPermanent(c, n, js) && |js| == Target(c, n)
        ensures n !in NodesAt(c, n, js) && |NodesAt(c, n, js)| == |js|
      {
        var d: Digest :| true;
        var s0, acts := AckOnTheirWord(c, n, d, js);
        var nodes := NodesAt(c, n, js);
        NodesNoMore(c, n, js);
        SubsetSize(Holders(c, After(c, s0, acts), d), nodes + {n});
      }
    }
  }
}
