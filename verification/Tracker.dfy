/** Telling a retransmitted call from a new one. */
module Tracker {
  import opened Core

  /** A call is known by its transaction id and the client's address. */
  datatype Key = Key(xid: nat, client: Bytes)

  datatype TransactionState = InProgress | Completed(at: nat)

  type Transactions = map<Key, TransactionState>

  predicate Kept(t: TransactionState, retention: nat, now: nat) {
    t.InProgress? || t.at + retention >= now
  }

  /** Completed calls are forgotten once the retention period has passed. */
  function Housekept(txs: Transactions, retention: nat, now: nat): Transactions {
    map k | k in txs && Kept(txs[k], retention, now) :: txs[k]
  }

  predicate Known(txs: Transactions, retention: nat, key: Key, now: nat) {
    key in txs && Kept(txs[key], retention, now)
  }

  function Seen(txs: Transactions, retention: nat, key: Key, now: nat): Transactions {
    var kept := Housekept(txs, retention, now);
    if Known(txs, retention, key, now) then kept else kept[key := InProgress]
  }

  function Processed(txs: Transactions, key: Key, at: nat): Transactions {
    if key in txs then txs[key := Completed(at)] else txs
  }

  class TransactionTracker {
    const retention: nat
    var transactions: Transactions

    constructor (retention: nat)
      ensures this.retention == retention && transactions == map[]
    {
      this.retention := retention;
      transactions := map[];
    }

    /** Sweep, then claim the call unless it is known. */
    method IsRetransmission(key: Key, now: nat) returns (known: bool)
      modifies this`transactions
      ensures known == Known(old(transactions), retention, key, now)
      ensures transactions == Seen(old(transactions), retention, key, now)
    {
      transactions := map k | k in transactions && Kept(transactions[k], retention, now) :: transactions[k];
      known := key in transactions;
      if !known {
        transactions := transactions[key := InProgress];
      }
    }

    method MarkProcessed(key: Key, at: nat)
      modifies this`transactions
      ensures transactions == Processed(old(transactions), key, at)
    {
      if key in transactions {
        transactions := transactions[key := Completed(at)];
      }
    }
  }

  // ---- Runs ----

  /** An execution has its completion time read off the clock before it takes the lock to
      record it. */
  datatype Phase = Running | Stamped(at: nat) | Done(at: nat)

  datatype Execution = Execution(key: Key, started: nat, phase: Phase)

  datatype State = State(txs: Transactions, clock: nat, log: seq<Execution>)

  datatype Action =
    | Receive(key: Key, now: nat)
    | Stamp(i: nat, now: nat)
    | Mark(i: nat)

  predicate Enabled(s: State, a: Action) {
    match a
    case Receive(_, now) => s.clock <= now
    case Stamp(i, now) => s.clock <= now && i < |s.log| && s.log[i].phase.Running?
    case Mark(i) => i < |s.log| && s.log[i].phase.Stamped?
  }

  function Next(retention: nat, s: State, a: Action): State
    requires Enabled(s, a)
  {
    match a
    case Receive(key, now) =>
      State(Seen(s.txs, retention, key, now), now,
            if Known(s.txs, retention, key, now) then s.log else s.log + [Execution(key, now, Running)])
    case Stamp(i, now) =>
      State(s.txs, now, s.log[i := s.log[i].(phase := Stamped(now))])
    case Mark(i) =>
      var at := s.log[i].phase.at;
      State(Processed(s.txs, s.log[i].key, at), s.clock, s.log[i := s.log[i].(phase := Done(at))])
  }

  /** The record of a call agrees with its executions. */
  ghost predicate Tracked(retention: nat, s: State, e: Execution) {
    && e.started <= s.clock
    && (!e.phase.Running? ==> e.started <= e.phase.at <= s.clock)
    && (if e.phase.Done?
        then (e.key in s.txs && s.txs[e.key].Completed? && e.phase.at <= s.txs[e.key].at)
             || e.phase.at + retention < s.clock
        else e.key in s.txs && s.txs[e.key] == InProgress)
  }

  /** `e` had completed, more than the retention period before `f` started. */
  predicate Apart(retention: nat, e: Execution, f: Execution) {
    e.key == f.key ==> e.phase.Done? && e.phase.at + retention < f.started
  }

  /** What is recorded comes from some execution. */
  ghost predicate Backed(s: State, k: Key) {
    k in s.txs ==> exists i :: 0 <= i < |s.log| && Backs(s.log[i], k, s.txs[k])
  }

  predicate Backs(e: Execution, k: Key, t: TransactionState) {
    e.key == k && if t.InProgress? then !e.phase.Done? else e.phase == Done(t.at)
  }

  ghost predicate Inv(retention: nat, s: State) {
    && (forall i :: 0 <= i < |s.log| ==> Tracked(retention, s, s.log[i]))
    && (forall i, j {:trigger Apart(retention, s.log[i], s.log[j])} ::
          0 <= i < j < |s.log| ==> Apart(retention, s.log[i], s.log[j]))
    && (forall k :: Backed(s, k))
  }

  lemma TrackedStep(retention: nat, s: State, a: Action, i: nat)
    requires Enabled(s, a) && Inv(retention, s) && i < |s.log|
    ensures Tracked(retention, Next(retention, s, a), Next(retention, s, a).log[i])
  {
    var e := s.log[i];
    assert Tracked(retention, s, e);
    if a.Mark? && a.i != i {
      assert Tracked(retention, s, s.log[a.i]);
      assert i < a.i ==> Apart(retention, e, s.log[a.i]);
      assert a.i < i ==> Apart(retention, s.log[a.i], e);
    }
  }

  lemma ApartStep(retention: nat, s: State, a: Action, i: nat, j: nat)
    requires Enabled(s, a) && Inv(retention, s) && i < j < |Next(retention, s, a).log|
    ensures Apart(retention, Next(retention, s, a).log[i], Next(retention, s, a).log[j])
  {
    assert Tracked(retention, s, s.log[i]);
    if j < |s.log| {
      assert Apart(retention, s.log[i], s.log[j]);
    }
  }

  lemma BackedStep(retention: nat, s: State, a: Action, k: Key)
    requires Enabled(s, a) && Inv(retention, s)
    ensures Backed(Next(retention, s, a), k)
  {
    var s' := Next(retention, s, a);
    if k in s'.txs {
      if a.Receive? && !Known(s.txs, retention, a.key, a.now) && k == a.key {
        assert Backs(s'.log[|s.log|], k, s'.txs[k]);
      } else if a.Mark? && k == s.log[a.i].key {
        assert Backs(s'.log[a.i], k, s'.txs[k]);
      } else {
        assert Backed(s, k) && k in s.txs && s'.txs[k] == s.txs[k];
        var i :| 0 <= i < |s.log| && Backs(s.log[i], k, s.txs[k]);
        assert Backs(s'.log[i], k, s'.txs[k]);
      }
    }
  }

  lemma InvStep(retention: nat, s: State, a: Action)
    requires Enabled(s, a) && Inv(retention, s)
    ensures Inv(retention, Next(retention, s, a))
  {
    var s' := Next(retention, s, a);
    forall i | 0 <= i < |s'.log| ensures Tracked(retention, s', s'.log[i]) {
      if i < |s.log| {
        TrackedStep(retention, s, a, i);
      }
    }
    forall i, j | 0 <= i < j < |s'.log| ensures Apart(retention, s'.log[i], s'.log[j]) {
      ApartStep(retention, s, a, i, j);
    }
    forall k ensures Backed(s', k) {
      BackedStep(retention, s, a, k);
    }
  }

  ghost predicate Runs(retention: nat, s: State, acts: seq<Action>)
    decreases |acts|
  {
    acts == [] || (Enabled(s, acts[0]) && Runs(retention, Next(retention, s, acts[0]), acts[1..]))
  }

  ghost function After(retention: nat, s: State, acts: seq<Action>): State
    requires Runs(retention, s, acts)
    decreases |acts|
  {
    if acts == [] then s else After(retention, Next(retention, s, acts[0]), acts[1..])
  }

  lemma {:induction false} InvHolds(retention: nat, s: State, acts: seq<Action>)
    requires Inv(retention, s) && Runs(retention, s, acts)
    ensures Inv(retention, After(retention, s, acts))
    decreases |acts|
  {
    if acts != [] {
      InvStep(retention, s, acts[0]);
      InvHolds(retention, Next(retention, s, acts[0]), acts[1..]);
    }
  }

  function Fresh(clock: nat): State {
    State(map[], clock, [])
  }

  /** In every run with a clock that does not go back, between two executions of one call lies
      the completion of the first, and more than the retention period after it. */
  lemma ExecutionsApart(retention: nat, clock: nat, acts: seq<Action>, i: nat, j: nat)
    requires Runs(retention, Fresh(clock), acts)
    requires i < j < |After(retention, Fresh(clock), acts).log|
    requires After(retention, Fresh(clock), acts).log[i].key == After(retention, Fresh(clock), acts).log[j].key
    ensures var log := After(retention, Fresh(clock), acts).log;
            log[i].phase.Done? && log[i].started <= log[i].phase.at && log[i].phase.at + retention < log[j].started
  {
    InvHolds(retention, Fresh(clock), acts);
    var s := After(retention, Fresh(clock), acts);
    assert Apart(retention, s.log[i], s.log[j]) && Tracked(retention, s, s.log[i]);
  }

  /** One call received, completed and received again: at any four times in order, and the second
      time it is executed exactly when the first completed more than the retention period
      before. */
  lemma ReceivedTwice(retention: nat, key: Key, t0: nat, t1: nat, t2: nat)
    requires t0 <= t1 <= t2
    ensures var acts := [Receive(key, t0), Stamp(0, t1), Mark(0), Receive(key, t2)];
            && Runs(retention, Fresh(t0), acts)
            && var first := Execution(key, t0, Done(t1));
               After(retention, Fresh(t0), acts).log ==
                 if t1 + retention < t2 then [first, Execution(key, t2, Running)] else [first]
  {
    var a, b, c, d := Receive(key, t0), Stamp(0, t1), Mark(0), Receive(key, t2);
    var s1 := Next(retention, Fresh(t0), a);
    var s2 := Next(retention, s1, b);
    var s3 := Next(retention, s2, c);
    assert s3 == State(map[key := Completed(t1)], t1, [Execution(key, t0, Done(t1))]);
    var s4 := Next(retention, s3, d);
    RunCons(retention, s3, d, []);
    RunCons(retention, s2, c, [d]);
    RunCons(retention, s1, b, [c, d]);
    RunCons(retention, Fresh(t0), a, [b, c, d]);
    assert [d] + [] == [d] && [c] + [d] == [c, d] && [b] + [c, d] == [b, c, d] && [a] + [b, c, d] == [a, b, c, d];
  }

  lemma RunCons(retention: nat, s: State, a: Action, rest: seq<Action>)
    requires Enabled(s, a) && Runs(retention, Next(retention, s, a), rest)
    ensures Runs(retention, s, [a] + rest) && After(retention, s, [a] + rest) == After(retention, Next(retention, s, a), rest)
  {
    assert ([a] + rest)[1..] == rest;
  }

  /** A call that arrives is executed exactly when every earlier execution of it has completed
      more than the retention period ago; in particular never while one is in progress. */
  lemma ExecutedExactly(retention: nat, clock: nat, acts: seq<Action>, key: Key, now: nat)
    requires Runs(retention, Fresh(clock), acts) && After(retention, Fresh(clock), acts).clock <= now
    ensures var s := After(retention, Fresh(clock), acts);
            !Known(s.txs, retention, key, now) <==>
              forall i :: 0 <= i < |s.log| && s.log[i].key == key ==>
                s.log[i].phase.Done? && s.log[i].phase.at + retention < now
  {
    InvHolds(retention, Fresh(clock), acts);
    var s := After(retention, Fresh(clock), acts);
    assert forall i :: 0 <= i < |s.log| ==> Tracked(retention, s, s.log[i]);
    assert Backed(s, key);
  }
}
