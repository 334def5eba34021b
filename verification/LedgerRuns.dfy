/** Every interleaving of any number of write-only writers with quarantine and corruption. */
module LedgerRuns {
  import opened Core
  import opened Digests
  import opened Ledger

  /** Where a gated writer stands between two of its atomic operations. */
  datatype Phase =
    | Streaming
    | Reserved(n: nat, before: nat, stamp: nat)  // added to `pending`, `committed` not yet loaded
    | Refusing(n: nat)                           // refused, reservation not yet given back
    | Tripped
    | Published                                  // the backend holds the blob, not yet charged
    | Accounted

  datatype Writer =
    | Gated(digest: Digest, mine: nat, phase: Phase)
    | Fast(digest: Digest)
    | Finished

  /** `len` is the length of the content a digest names. */
  datatype Config = Config(capacity: nat, len: Digest -> nat)

  /** `clock` stamps each `pending.fetch_add`; `top` is one past the newest stamp the gate
      accepted; `growth` is what quarantine steps added so far. */
  datatype State = State(shared: Shared, writers: seq<Writer>, clock: nat, top: nat, growth: nat)

  datatype Action =
    | StartFast(d: Digest)
    | StartGated(d: Digest)
    | Reserve(i: nat, n: nat)
    | Check(i: nat)
    | GiveBack(i: nat)
    | Publish(i: nat, over: bool)
    | FindPresent(i: nat)
    | Account(i: nat)
    | DropGate(i: nat)
    | FastPublish(i: nat, over: bool)
    | FastDrop(i: nat)
    | Quarantine(d: Digest, id: QuarantineId)
    | Corrupt(d: Digest, length: nat)

  predicate GatedAt(s: State, i: nat) {
    i < |s.writers| && s.writers[i].Gated?
  }

  predicate FastAt(s: State, i: nat) {
    i < |s.writers| && s.writers[i].Fast?
  }

  /** When the source can take each step. `StartGated` of a held digest is possible because
      a failing `has` reads as "not held". */
  predicate Enabled(c: Config, s: State, a: Action) {
    match a
    case StartFast(d) => d in s.shared.accounted || d in s.shared.live
    case StartGated(d) => d !in s.shared.accounted
    case Reserve(i, n) => GatedAt(s, i) && s.writers[i].phase.Streaming?
    case Check(i) => GatedAt(s, i) && s.writers[i].phase.Reserved?
    case GiveBack(i) => GatedAt(s, i) && s.writers[i].phase.Refusing?
    case Publish(i, _) =>
      && GatedAt(s, i) && s.writers[i].phase.Streaming?
      && s.writers[i].mine == c.len(s.writers[i].digest)
    case FindPresent(i) =>
      && GatedAt(s, i) && s.writers[i].phase.Streaming?
      && s.writers[i].mine == 0 && s.writers[i].digest in s.shared.live
    case Account(i) => GatedAt(s, i) && s.writers[i].phase.Published?
    case DropGate(i) =>
      && GatedAt(s, i)
      && (s.writers[i].phase.Streaming? || s.writers[i].phase.Tripped? || s.writers[i].phase.Accounted?)
    case FastPublish(i, _) => FastAt(s, i)
    case FastDrop(i) => FastAt(s, i)
    case Quarantine(d, id) => id.digest == d && id !in s.shared.quarantined
    case Corrupt(d, _) => d in s.shared.live
  }

  function SetPhase(s: State, i: nat, phase: Phase): State
    requires GatedAt(s, i)
  {
    s.(writers := s.writers[i := s.writers[i].(phase := phase)])
  }

  function Finish(s: State, i: nat): State
    requires i < |s.writers|
  {
    s.(writers := s.writers[i := Finished])
  }

  function DoCheck(c: Config, s: State, i: nat): State
    requires Enabled(c, s, Check(i))
  {
    var w := s.writers[i];
    var r := w.phase;
    if GateRefuses(c.capacity, s.shared.mirror, r.before, r.n) then SetPhase(s, i, Refusing(r.n))
    else
      s.(writers := s.writers[i := Gated(w.digest, w.mine + r.n, Streaming)],
         top := Max(s.top, r.stamp + 1))
  }

  function Next(c: Config, s: State, a: Action): State
    requires Enabled(c, s, a)
  {
    var sh := s.shared;
    match a
    case StartFast(d) => s.(shared := RegisterFast(sh, d), writers := s.writers + [Fast(d)])
    case StartGated(d) => s.(writers := s.writers + [Gated(d, 0, Streaming)])
    case Reserve(i, n) =>
      SetPhase(s, i, Reserved(n, sh.pending, s.clock))
      .(shared := sh.(pending := sh.pending + n), clock := s.clock + 1)
    case Check(i) => DoCheck(c, s, i)
    case GiveBack(i) =>
      SetPhase(s, i, Tripped).(shared := sh.(pending := WrapSub(sh.pending, s.writers[i].phase.n)))
    case Publish(i, over) =>
      var d := s.writers[i].digest;
      SetPhase(s, i, Published).(shared := Land(sh, d, c.len(d), over))
    case FindPresent(i) => SetPhase(s, i, Published)
    case Account(i) =>
      SetPhase(s, i, Accounted).(shared := Charge(sh, s.writers[i].digest, s.writers[i].mine))
    case DropGate(i) =>
      Finish(s, i).(shared := sh.(pending := WrapSub(sh.pending, s.writers[i].mine)))
    case FastPublish(i, over) =>
      var d := s.writers[i].digest;
      s.(shared := Land(sh, d, c.len(d), over))
    case FastDrop(i) => Finish(s, i).(shared := ReleaseFast(sh, s.writers[i].digest))
    case Quarantine(d, id) =>
      s.(shared := MoveAside(sh, d, id), growth := s.growth + QuarantineGrowth(sh, d))
    case Corrupt(d, length) => s.(shared := sh.(live := sh.live[d := length]))
  }

  // ---- Totals over all writers ----

  /** What a writer contributes to each total. */
  datatype Measure =
    | Pending                 // bytes its gate holds in `pending`
    | Accepted                // bytes it was let through and has not charged yet
    | Unchecked(stamp: nat)   // its unchecked reservation, when stamped before `stamp`
    | FastOn(d: Digest)       // one for each registered re-put of `d`

  function Weight(k: Measure, w: Writer): nat {
    match k
    case Pending =>
      if !w.Gated? then 0
      else w.mine + (if w.phase.Reserved? || w.phase.Refusing? then w.phase.n else 0)
    case Accepted => if w.Gated? && !w.phase.Accounted? then w.mine else 0
    case Unchecked(stamp) =>
      if w.Gated? && w.phase.Reserved? && w.phase.stamp < stamp then w.phase.n else 0
    case FastOn(d) => if w.Fast? && w.digest == d then 1 else 0
  }

  function Total(k: Measure, ws: seq<Writer>): nat {
    if |ws| == 0 then 0 else Total(k, ws[..|ws| - 1]) + Weight(k, ws[|ws| - 1])
  }

  lemma {:induction false} TotalUpdate(k: Measure, ws: seq<Writer>, i: nat, w: Writer)
    requires i < |ws|
    ensures Total(k, ws[i := w]) == Total(k, ws) - Weight(k, ws[i]) + Weight(k, w)
    ensures Weight(k, ws[i]) <= Total(k, ws)
  {
    var n := |ws| - 1;
    if i == n {
      assert ws[i := w][..n] == ws[..n];
    } else {
      TotalUpdate(k, ws[..n], i, w);
      assert ws[i := w][..n] == ws[..n][i := w];
    }
  }

  /** Every total after one writer changes. */
  lemma TotalsUpdate(ws: seq<Writer>, i: nat, w: Writer)
    requires i < |ws|
    ensures forall k :: Total(k, ws[i := w]) == Total(k, ws) - Weight(k, ws[i]) + Weight(k, w)
    ensures forall k :: Weight(k, ws[i]) <= Total(k, ws)
  {
    forall k
      ensures Total(k, ws[i := w]) == Total(k, ws) - Weight(k, ws[i]) + Weight(k, w)
      ensures Weight(k, ws[i]) <= Total(k, ws)
    {
      TotalUpdate(k, ws, i, w);
    }
  }

  lemma TotalAppend(k: Measure, ws: seq<Writer>, w: Writer)
    ensures Total(k, ws + [w]) == Total(k, ws) + Weight(k, w)
  {
    assert (ws + [w])[..|ws|] == ws;
  }

  lemma TotalsAppend(ws: seq<Writer>, w: Writer)
    ensures forall k :: Total(k, ws + [w]) == Total(k, ws) + Weight(k, w)
  {
    forall k ensures Total(k, ws + [w]) == Total(k, ws) + Weight(k, w) {
      TotalAppend(k, ws, w);
    }
  }

  /** Everything accepted or unchecked is still reserved. */
  lemma {:induction false} ReservedCovers(ws: seq<Writer>, stamp: nat)
    ensures Total(Accepted, ws) + Total(Unchecked(stamp), ws) <= Total(Pending, ws)
  {
    if |ws| > 0 {
      ReservedCovers(ws[..|ws| - 1], stamp);
    }
  }

  /** A stamp no reservation carries separates nothing. */
  lemma {:induction false} UncheckedGap(ws: seq<Writer>, stamp: nat)
    requires forall j | 0 <= j < |ws| && Waiting(ws[j]) :: ws[j].phase.stamp != stamp
    ensures Total(Unchecked(stamp + 1), ws) == Total(Unchecked(stamp), ws)
  {
    if |ws| > 0 {
      UncheckedGap(ws[..|ws| - 1], stamp);
    }
  }

  // ---- The capacity bound ----

  /** A reservation whose `committed` load is still to come. */
  predicate Waiting(w: Writer) {
    w.Gated? && w.phase.Reserved?
  }

  /** Stamps are distinct and older than the clock. */
  ghost predicate Stamped(s: State) {
    && s.top <= s.clock
    && (forall j | 0 <= j < |s.writers| && Waiting(s.writers[j]) ::
          s.writers[j].phase.stamp < s.clock && s.writers[j].phase.stamp + 1 != s.top)
    && (forall j, k | 0 <= j < k < |s.writers| && Waiting(s.writers[j]) && Waiting(s.writers[k]) ::
          s.writers[j].phase.stamp != s.writers[k].phase.stamp)
  }

  /** A reservation newer than every accepted one saw all that is accepted or older than it. */
  ghost predicate SawOlder(s: State) {
    forall j | 0 <= j < |s.writers| && Waiting(s.writers[j]) && s.writers[j].phase.stamp >= s.top ::
      s.writers[j].phase.before
        >= Total(Accepted, s.writers) + Total(Unchecked(s.writers[j].phase.stamp), s.writers)
  }

  /** Older unchecked reservations are already paid for by the newest accepted one. */
  ghost predicate Within(s: State, bound: nat) {
    s.shared.mirror + Total(Accepted, s.writers) + Total(Unchecked(s.top), s.writers)
      <= bound + s.growth
  }

  ghost predicate PendingExact(s: State) {
    s.shared.pending == Total(Pending, s.writers)
  }

  // ---- Held implies charged ----

  /** A writer that published `d` and still holds the reservation for its bytes. */
  predicate Holds(c: Config, w: Writer, d: Digest) {
    w.Gated? && w.digest == d && w.phase.Published? && w.mine == c.len(d)
  }

  ghost predicate Charged(c: Config, s: State, d: Digest) {
    || c.len(d) == 0
    || d in s.shared.accounted
    || exists j :: 0 <= j < |s.writers| && Holds(c, s.writers[j], d)
  }

  ghost predicate HeldCharged(c: Config, s: State) {
    && (forall d :: d in s.shared.live ==> Charged(c, s, d))
    && (forall j :: 0 <= j < |s.writers| && s.writers[j].Fast? ==> Charged(c, s, s.writers[j].digest))
  }

  /** The count kept for `d` is the number of its registered re-puts, and kept only if any. */
  predicate FastAgrees(sh: Shared, ws: seq<Writer>, d: Digest) {
    if d in sh.fastInflight then sh.fastInflight[d] > 0 && sh.fastInflight[d] == Total(FastOn(d), ws)
    else Total(FastOn(d), ws) == 0
  }

  ghost predicate FastExact(s: State) {
    forall d :: FastAgrees(s.shared, s.writers, d)
  }

  // ---- One step keeps each invariant ----

  /** The actions by which one writer moves on, its gate's own two aside. */
  predicate Moves(a: Action) {
    a.GiveBack? || a.Publish? || a.FindPresent? || a.Account? || a.DropGate? || a.FastDrop?
  }

  /** Such a step changes one writer, never to or from waiting, and charges at most what that
      writer was let through. */
  lemma MoveFacts(c: Config, s: State, a: Action)
    requires Enabled(c, s, a) && Moves(a)
    ensures var s' := Next(c, s, a);
            && a.i < |s.writers| == |s'.writers| && s'.writers == s.writers[a.i := s'.writers[a.i]]
            && !Waiting(s.writers[a.i]) && !Waiting(s'.writers[a.i])
            && s'.clock == s.clock && s'.top == s.top && s'.growth == s.growth
  {
  }

  lemma MoveCharges(c: Config, s: State, a: Action)
    requires Enabled(c, s, a) && Moves(a) && s.shared.mirror == s.shared.committed
    ensures var s' := Next(c, s, a);
            && Weight(Accepted, s'.writers[a.i]) <= Weight(Accepted, s.writers[a.i])
            && s'.shared.mirror + Weight(Accepted, s'.writers[a.i])
               <= s.shared.mirror + Weight(Accepted, s.writers[a.i])
  {
  }

  lemma MoveReleases(c: Config, s: State, a: Action)
    requires Enabled(c, s, a) && Moves(a)
    ensures var s' := Next(c, s, a); var was, now := Weight(Pending, s.writers[a.i]), Weight(Pending, s'.writers[a.i]);
            && now <= was
            && s'.shared.pending == (if now == was then s.shared.pending else WrapSub(s.shared.pending, was - now))
    ensures a.GiveBack? ==> s.writers[a.i].phase.n <= Weight(Pending, s.writers[a.i])
    ensures a.DropGate? ==> s.writers[a.i].mine <= Weight(Pending, s.writers[a.i])
  {
  }

  /** A step of a gate changes `pending` by exactly what its own holding changes. */
  lemma GateMoves(s: State, s': State, i: nat)
    requires PendingExact(s)
    requires i < |s.writers| == |s'.writers| && s'.writers == s.writers[i := s'.writers[i]]
    requires s'.shared.pending - Weight(Pending, s'.writers[i]) == s.shared.pending - Weight(Pending, s.writers[i])
             || (&& Weight(Pending, s'.writers[i]) <= Weight(Pending, s.writers[i])
                 && s'.shared.pending
                    == WrapSub(s.shared.pending, Weight(Pending, s.writers[i]) - Weight(Pending, s'.writers[i])))
    ensures PendingExact(s') && Weight(Pending, s.writers[i]) <= s.shared.pending
  {
    TotalUpdate(Pending, s.writers, i, s'.writers[i]);
  }

  lemma MovePending(c: Config, s: State, a: Action)
    requires Enabled(c, s, a) && Moves(a) && PendingExact(s)
    ensures PendingExact(Next(c, s, a))
    ensures a.GiveBack? ==> s.writers[a.i].phase.n <= s.shared.pending
    ensures a.DropGate? ==> s.writers[a.i].mine <= s.shared.pending
  {
    MoveFacts(c, s, a);
    MoveReleases(c, s, a);
    GateMoves(s, Next(c, s, a), a.i);
  }

  lemma GatePending(c: Config, s: State, a: Action)
    requires Enabled(c, s, a) && (a.Reserve? || a.Check?) && PendingExact(s)
    ensures PendingExact(Next(c, s, a))
  {
    GateMoves(s, Next(c, s, a), a.i);
  }

  lemma ArrivesWithNothing(s: State, s': State, w: Writer)
    requires PendingExact(s) && s'.writers == s.writers + [w] && s'.shared.pending == s.shared.pending
    requires Weight(Pending, w) == 0
    ensures PendingExact(s')
  {
    TotalAppend(Pending, s.writers, w);
  }

  lemma ArrivePending(c: Config, s: State, a: Action)
    requires Enabled(c, s, a) && (a.StartFast? || a.StartGated?) && PendingExact(s)
    ensures PendingExact(Next(c, s, a))
  {
    ArrivesWithNothing(s, Next(c, s, a), if a.StartFast? then Fast(a.d) else Gated(a.d, 0, Streaming));
  }

  lemma OtherPending(c: Config, s: State, a: Action)
    requires Enabled(c, s, a) && (a.Quarantine? || a.Corrupt? || a.FastPublish?)
    ensures Next(c, s, a).writers == s.writers && Next(c, s, a).shared.pending == s.shared.pending
  {
  }

  lemma PendingStep(c: Config, s: State, a: Action)
    requires Enabled(c, s, a) && PendingExact(s)
    ensures PendingExact(Next(c, s, a))
    ensures a.GiveBack? ==> s.writers[a.i].phase.n <= s.shared.pending
    ensures a.DropGate? ==> s.writers[a.i].mine <= s.shared.pending
  {
    if a.StartFast? || a.StartGated? {
      ArrivePending(c, s, a);
    } else if Moves(a) {
      MovePending(c, s, a);
    } else if a.Reserve? || a.Check? {
      GatePending(c, s, a);
    } else {
      OtherPending(c, s, a);
    }
  }

  lemma BalanceStep(c: Config, s: State, a: Action)
    requires Enabled(c, s, a) && Balanced(s.shared)
    ensures Balanced(Next(c, s, a).shared)
  {
    match a
    case Account(i) => ChargeKeepsBalance(s.shared, s.writers[i].digest, s.writers[i].mine);
    case Quarantine(d, id) => MoveAsideKeepsBalance(s.shared, d, id);
    case _ =>
  }

  ghost predicate CapacityInv(s: State, bound: nat) {
    Stamped(s) && SawOlder(s) && Within(s, bound)
  }

  /** A new reservation sees everything already reserved. */
  lemma ReserveStep(c: Config, s: State, i: nat, n: nat, bound: nat)
    requires Enabled(c, s, Reserve(i, n))
    requires PendingExact(s) && CapacityInv(s, bound)
    ensures CapacityInv(Next(c, s, Reserve(i, n)), bound)
  {
    var s' := Next(c, s, Reserve(i, n));
    TotalsUpdate(s.writers, i, s'.writers[i]);
    assert s'.writers == s.writers[i := s'.writers[i]];
    ReservedCovers(s.writers, s.clock);
  }

  /** A refused reservation is no longer waiting. */
  lemma RefuseStep(s: State, i: nat, bound: nat)
    requires i < |s.writers| && Waiting(s.writers[i]) && CapacityInv(s, bound)
    ensures CapacityInv(SetPhase(s, i, Refusing(s.writers[i].phase.n)), bound)
  {
    TotalsUpdate(s.writers, i, s.writers[i].(phase := Refusing(s.writers[i].phase.n)));
  }

  /** Accepting moves a reservation from "unchecked" to "accepted", and the newest accepted one
      pays for all older ones. */
  lemma AcceptStep(c: Config, s: State, i: nat, bound: nat)
    requires Enabled(c, s, Check(i)) && CapacityInv(s, bound)
    requires c.capacity < U64_MAX && c.capacity <= bound
    requires !GateRefuses(c.capacity, s.shared.mirror, s.writers[i].phase.before, s.writers[i].phase.n)
    ensures CapacityInv(Next(c, s, Check(i)), bound)
  {
    var s' := Next(c, s, Check(i));
    TotalsUpdate(s.writers, i, s'.writers[i]);
    assert s'.writers == s.writers[i := s'.writers[i]];
    var r := s.writers[i].phase;
    GateIsExact(c.capacity, s.shared.mirror, r.before, r.n);
    UncheckedGap(s'.writers, r.stamp);
  }

  /** The gate's verdict. */
  lemma CheckStep(c: Config, s: State, i: nat, bound: nat)
    requires Enabled(c, s, Check(i)) && CapacityInv(s, bound)
    requires c.capacity < U64_MAX && c.capacity <= bound
    ensures CapacityInv(Next(c, s, Check(i)), bound)
  {
    var r := s.writers[i].phase;
    if GateRefuses(c.capacity, s.shared.mirror, r.before, r.n) {
      RefuseStep(s, i, bound);
    } else {
      AcceptStep(c, s, i, bound);
    }
  }

  /** A writer that is not waiting moves on, charging at most what it was let through. */
  lemma MoveOn(s: State, s': State, i: nat, bound: nat)
    requires CapacityInv(s, bound)
    requires i < |s.writers| && |s'.writers| == |s.writers|
    requires s'.writers == s.writers[i := s'.writers[i]]
    requires !Waiting(s.writers[i]) && !Waiting(s'.writers[i])
    requires s'.clock == s.clock && s'.top == s.top && s'.growth == s.growth
    requires Weight(Accepted, s'.writers[i]) <= Weight(Accepted, s.writers[i])
    requires s'.shared.mirror + Weight(Accepted, s'.writers[i])
             <= s.shared.mirror + Weight(Accepted, s.writers[i])
    ensures CapacityInv(s', bound)
  {
    TotalsUpdate(s.writers, i, s'.writers[i]);
  }

  /** A new writer has reserved nothing. */
  lemma Arrive(s: State, s': State, w: Writer, bound: nat)
    requires CapacityInv(s, bound)
    requires s'.writers == s.writers + [w]
    requires !Waiting(w) && Weight(Accepted, w) == 0
    requires s'.clock == s.clock && s'.top == s.top && s'.growth == s.growth
    requires s'.shared.mirror == s.shared.mirror
    ensures CapacityInv(s', bound)
  {
    TotalsAppend(s.writers, w);
  }

  lemma CapacityStep(c: Config, s: State, a: Action, bound: nat)
    requires Enabled(c, s, a)
    requires c.capacity < U64_MAX && c.capacity <= bound
    requires PendingExact(s) && Balanced(s.shared) && CapacityInv(s, bound)
    ensures CapacityInv(Next(c, s, a), bound)
  {
    var s' := Next(c, s, a);
    match a
    case StartFast(d) => Arrive(s, s', Fast(d), bound);
    case StartGated(d) => Arrive(s, s', Gated(d, 0, Streaming), bound);
    case Reserve(i, n) => ReserveStep(c, s, i, n, bound);
    case Check(i) => CheckStep(c, s, i, bound);
    case Quarantine(d, id) => MoveAsideKeepsBalance(s.shared, d, id);
    case Corrupt(_, _) =>
    case FastPublish(_, _) =>
    case _ =>
      MoveFacts(c, s, a);
      MoveCharges(c, s, a);
      MoveOn(s, s', a.i, bound);
  }

  lemma FastMoveOn(s: State, s': State, i: nat)
    requires FastExact(s) && s'.shared.fastInflight == s.shared.fastInflight
    requires i < |s.writers| == |s'.writers| && s'.writers == s.writers[i := s'.writers[i]]
    requires !s.writers[i].Fast? && !s'.writers[i].Fast?
    ensures FastExact(s')
  {
    forall d ensures FastAgrees(s'.shared, s'.writers, d) {
      TotalUpdate(FastOn(d), s.writers, i, s'.writers[i]);
      assert FastAgrees(s.shared, s.writers, d);
    }
  }

  /** The count of one digest after a re-put of `e` is deregistered. */
  lemma FastDropAt(sh: Shared, ws: seq<Writer>, i: nat, d: Digest)
    requires i < |ws| && ws[i].Fast?
    requires forall e :: FastAgrees(sh, ws, e)
    ensures FastAgrees(ReleaseFast(sh, ws[i].digest), ws[i := Finished], d)
  {
    TotalUpdate(FastOn(d), ws, i, Finished);
    assert FastAgrees(sh, ws, d) && FastAgrees(sh, ws, ws[i].digest);
  }

  lemma FastDropStep(c: Config, s: State, i: nat)
    requires Enabled(c, s, FastDrop(i)) && FastExact(s)
    ensures FastExact(Next(c, s, FastDrop(i)))
  {
    forall d ensures FastAgrees(Next(c, s, FastDrop(i)).shared, Next(c, s, FastDrop(i)).writers, d) {
      FastDropAt(s.shared, s.writers, i, d);
    }
  }

  lemma FastStartStep(s: State, s': State, w: Writer)
    requires FastExact(s) && s'.writers == s.writers + [w]
    requires if w.Fast? then s'.shared == RegisterFast(s.shared, w.digest) else s'.shared == s.shared
    ensures FastExact(s')
  {
    forall d ensures FastAgrees(s'.shared, s'.writers, d) {
      TotalAppend(FastOn(d), s.writers, w);
      assert FastAgrees(s.shared, s.writers, d);
    }
  }

  lemma FastSame(s: State, s': State)
    requires FastExact(s) && s'.writers == s.writers && s'.shared.fastInflight == s.shared.fastInflight
    ensures FastExact(s')
  {
    forall d ensures FastAgrees(s'.shared, s'.writers, d) {
      assert FastAgrees(s.shared, s.writers, d);
    }
  }

  lemma FastStep(c: Config, s: State, a: Action)
    requires Enabled(c, s, a) && FastExact(s)
    ensures FastExact(Next(c, s, a))
  {
    var s' := Next(c, s, a);
    if a.StartFast? || a.StartGated? {
      FastStartStep(s, s', s'.writers[|s.writers|]);
    } else if a.FastDrop? {
      FastDropStep(c, s, a.i);
    } else if a.Quarantine? || a.Corrupt? || a.FastPublish? {
      FastSame(s, s');
    } else {
      FastMoveOn(s, s', a.i);
    }
  }

  /** Nothing that is charged loses its charge, save the digest quarantine moves aside. */
  lemma ChargedStays(c: Config, s: State, a: Action, d: Digest)
    requires Enabled(c, s, a) && Charged(c, s, d)
    requires a.Quarantine? && a.d == d ==> Deferred(s.shared, d) || d !in s.shared.live
    ensures Charged(c, Next(c, s, a), d)
  {
    var s' := Next(c, s, a);
    if c.len(d) != 0 && d !in s.shared.accounted {
      var j :| 0 <= j < |s.writers| && Holds(c, s.writers[j], d);
      if !(a.Account? && a.i == j) {
        assert s'.writers[j] == s.writers[j];
      }
    }
  }

  lemma LiveCharged(c: Config, s: State, a: Action, d: Digest)
    requires Enabled(c, s, a) && FastExact(s) && HeldCharged(c, s) && d in Next(c, s, a).shared.live
    ensures Charged(c, Next(c, s, a), d)
  {
    if a.Publish? && d == s.writers[a.i].digest {
      assert Holds(c, Next(c, s, a).writers[a.i], d);
    } else {
      assert Charged(c, s, d);
      ChargedStays(c, s, a, d);
    }
  }

  lemma FastCharged(c: Config, s: State, a: Action, j: nat)
    requires Enabled(c, s, a) && FastExact(s) && HeldCharged(c, s)
    requires j < |Next(c, s, a).writers| && Next(c, s, a).writers[j].Fast?
    ensures Charged(c, Next(c, s, a), Next(c, s, a).writers[j].digest)
  {
    var d := Next(c, s, a).writers[j].digest;
    if j < |s.writers| {
      TotalUpdate(FastOn(d), s.writers, j, Finished);
      assert FastAgrees(s.shared, s.writers, d);
    }
    assert Charged(c, s, d);
    ChargedStays(c, s, a, d);
  }

  lemma HeldStep(c: Config, s: State, a: Action)
    requires Enabled(c, s, a) && FastExact(s) && HeldCharged(c, s)
    ensures HeldCharged(c, Next(c, s, a))
  {
    var s' := Next(c, s, a);
    forall d | d in s'.shared.live ensures Charged(c, s', d) {
      LiveCharged(c, s, a, d);
    }
    forall j | 0 <= j < |s'.writers| && s'.writers[j].Fast? ensures Charged(c, s', s'.writers[j].digest) {
      FastCharged(c, s, a, j);
    }
  }

  // ---- The files ----

  /** Publishing puts the whole content in place, over what is there if it may, and touches no
      other file. */
  lemma PublishLands(c: Config, s: State, a: Action)
    requires Enabled(c, s, a) && (a.Publish? || a.FastPublish?)
    ensures var was, now, d := s.shared.live, Next(c, s, a).shared.live, s.writers[a.i].digest;
            && d in now && (a.over || d !in was ==> now[d] == c.len(d))
            && now - {d} == was - {d}
  {
  }

  /** No other step but quarantine and corruption changes a file. */
  lemma FilesStay(c: Config, s: State, a: Action)
    requires Enabled(c, s, a) && !a.Publish? && !a.FastPublish? && !a.Quarantine? && !a.Corrupt?
    ensures Next(c, s, a).shared.live == s.shared.live && Next(c, s, a).shared.quarantined == s.shared.quarantined
  {
  }

  lemma {:induction false} SomeFast(ws: seq<Writer>, d: Digest)
    ensures Total(FastOn(d), ws) > 0 <==> Fast(d) in ws
  {
    if |ws| > 0 {
      SomeFast(ws[..|ws| - 1], d);
      assert ws == ws[..|ws| - 1] + [ws[|ws| - 1]];
    }
  }

  /** A re-put that nothing interrupts can always run its course. It leaves the content in place,
      over what is there if it may, and everything else as it was. */
  lemma RePutRuns(c: Config, s: State, d: Digest, over: bool)
    requires FastExact(s) && (d in s.shared.accounted || d in s.shared.live)
    ensures var k := |s.writers|;
            var acts := [StartFast(d), FastPublish(k, over), FastDrop(k)];
            && Runs(c, s, acts)
            && var live := if over || d !in s.shared.live then s.shared.live[d := c.len(d)] else s.shared.live;
               After(c, s, acts) == s.(shared := s.shared.(live := live), writers := s.writers + [Finished])
  {
    var k, sh := |s.writers|, s.shared;
    assert FastAgrees(sh, s.writers, d);
    Registration(sh, d, c.len(d), over);
    var landed := Land(RegisterFast(sh, d), d, c.len(d), over);
    var s1 := s.(shared := RegisterFast(sh, d), writers := s.writers + [Fast(d)]);
    assert Next(c, s, StartFast(d)) == s1 && FastAt(s1, k) && s1.writers[k].digest == d;
    var s2 := s.(shared := landed, writers := s.writers + [Fast(d)]);
    assert Next(c, s1, FastPublish(k, over)) == s2 && s2.writers[k].digest == d;
    var s3 := Next(c, s2, FastDrop(k));
    assert s3.writers == s.writers + [Finished] && s3.shared == ReleaseFast(landed, d);
    ThreeSteps(c, s, StartFast(d), FastPublish(k, over), FastDrop(k));
  }

  lemma RunCons(c: Config, s: State, a: Action, s1: State, rest: seq<Action>)
    requires Enabled(c, s, a) && Next(c, s, a) == s1 && Runs(c, s1, rest)
    ensures Runs(c, s, [a] + rest) && After(c, s, [a] + rest) == After(c, s1, rest)
  {
    assert ([a] + rest)[1..] == rest;
  }

  /** `s` with one more writer, which has the clock moved on by `ticks`. */
  function With(s: State, sh: Shared, w: Writer, ticks: nat, top: nat): State {
    State(sh, s.writers + [w], s.clock + ticks, top, s.growth)
  }

  /** A new writer's first reservation, up to what the gate says. */
  lemma Reserves(c: Config, s: State, d: Digest, n: nat, rest: seq<Action>)
    requires d !in s.shared.accounted
    requires var held := s.shared.(pending := s.shared.pending + n);
             Runs(c, if GateRefuses(c.capacity, s.shared.mirror, s.shared.pending, n)
                     then With(s, held, Gated(d, 0, Refusing(n)), 1, s.top)
                     else With(s, held, Gated(d, n, Streaming), 1, Max(s.top, s.clock + 1)), rest)
    ensures var k, held := |s.writers|, s.shared.(pending := s.shared.pending + n);
            var acts := [StartGated(d)] + ([Reserve(k, n)] + ([Check(k)] + rest));
            && Runs(c, s, acts)
            && After(c, s, acts) ==
                 After(c, if GateRefuses(c.capacity, s.shared.mirror, s.shared.pending, n)
                          then With(s, held, Gated(d, 0, Refusing(n)), 1, s.top)
                          else With(s, held, Gated(d, n, Streaming), 1, Max(s.top, s.clock + 1)), rest)
  {
    var k, held := |s.writers|, s.shared.(pending := s.shared.pending + n);
    var s1 := With(s, s.shared, Gated(d, 0, Streaming), 0, s.top);
    var s2 := With(s, held, Gated(d, 0, Reserved(n, s.shared.pending, s.clock)), 1, s.top);
    var s3 := if GateRefuses(c.capacity, s.shared.mirror, s.shared.pending, n)
              then With(s, held, Gated(d, 0, Refusing(n)), 1, s.top)
              else With(s, held, Gated(d, n, Streaming), 1, Max(s.top, s.clock + 1));
    assert Next(c, s1, Reserve(k, n)) == s2;
    assert Next(c, s2, Check(k)) == s3;
    RunCons(c, s2, Check(k), s3, rest);
    RunCons(c, s1, Reserve(k, n), s2, [Check(k)] + rest);
    RunCons(c, s, StartGated(d), s1, [Reserve(k, n)] + ([Check(k)] + rest));
  }

  /** A new write that fits, and that nothing interrupts, runs its course: its content is in
      place and charged, its reservation is given back, and everything else is as it was. */
  lemma NewPutRuns(c: Config, s: State, d: Digest, over: bool)
    requires s.shared.mirror == s.shared.committed && d !in s.shared.accounted && d !in s.shared.live && c.len(d) > 0
    requires s.shared.committed + s.shared.pending + c.len(d) <= c.capacity <= U64_MAX
    ensures var k, n, sh := |s.writers|, c.len(d), s.shared;
            var acts := [StartGated(d)] + ([Reserve(k, n)] + ([Check(k)] + [Publish(k, over), Account(k), DropGate(k)]));
            && Runs(c, s, acts)
            && After(c, s, acts).shared == sh.(accounted := sh.accounted[d := n], live := sh.live[d := n],
                                               committed := sh.committed + n, mirror := sh.committed + n)
  {
    var k, n, sh := |s.writers|, c.len(d), s.shared;
    GateIsExact(c.capacity, sh.mirror, sh.pending, n);
    Charges(c, s, d, over);
    Reserves(c, s, d, n, [Publish(k, over), Account(k), DropGate(k)]);
  }

  lemma Charges(c: Config, s: State, d: Digest, over: bool)
    requires s.shared.mirror == s.shared.committed && d !in s.shared.accounted && d !in s.shared.live && c.len(d) > 0
    ensures var k, n, sh := |s.writers|, c.len(d), s.shared;
            var s3 := With(s, sh.(pending := sh.pending + n), Gated(d, n, Streaming), 1, Max(s.top, s.clock + 1));
            var acts := [Publish(k, over), Account(k), DropGate(k)];
            && Runs(c, s3, acts)
            && After(c, s3, acts).shared == sh.(accounted := sh.accounted[d := n], live := sh.live[d := n],
                                                committed := sh.committed + n, mirror := sh.committed + n)
  {
    var k, n, sh, top := |s.writers|, c.len(d), s.shared, Max(s.top, s.clock + 1);
    var held := sh.(pending := sh.pending + n);
    var landed := held.(live := sh.live[d := n]);
    var charged := landed.(accounted := sh.accounted[d := n], committed := sh.committed + n, mirror := sh.committed + n);
    var s3 := With(s, held, Gated(d, n, Streaming), 1, top);
    var s4 := With(s, landed, Gated(d, n, Published), 1, top);
    var s5 := With(s, charged, Gated(d, n, Accounted), 1, top);
    assert Next(c, s3, Publish(k, over)) == s4;
    assert Next(c, s4, Account(k)) == s5;
    ThreeSteps(c, s3, Publish(k, over), Account(k), DropGate(k));
  }

  /** A new write that does not fit leaves no trace in what is shared. */
  lemma RefusedPutRuns(c: Config, s: State, d: Digest, n: nat)
    requires d !in s.shared.accounted && c.capacity < U64_MAX && s.shared.mirror + s.shared.pending + n > c.capacity
    ensures var k := |s.writers|;
            var acts := [StartGated(d)] + ([Reserve(k, n)] + ([Check(k)] + [GiveBack(k), DropGate(k)]));
            Runs(c, s, acts) && After(c, s, acts).shared == s.shared && After(c, s, acts).writers == s.writers + [Finished]
  {
    var k, sh := |s.writers|, s.shared;
    GateIsExact(c.capacity, sh.mirror, sh.pending, n);
    var s3 := With(s, sh.(pending := sh.pending + n), Gated(d, 0, Refusing(n)), 1, s.top);
    var s4 := With(s, sh, Gated(d, 0, Tripped), 1, s.top);
    var s5 := With(s, sh, Finished, 1, s.top);
    assert Next(c, s3, GiveBack(k)) == s4;
    assert Next(c, s4, DropGate(k)) == s5;
    RunCons(c, s4, DropGate(k), s5, []);
    RunCons(c, s3, GiveBack(k), s4, [DropGate(k)]);
    assert [DropGate(k)] + [] == [DropGate(k)] && [GiveBack(k)] + [DropGate(k)] == [GiveBack(k), DropGate(k)];
    Reserves(c, s, d, n, [GiveBack(k), DropGate(k)]);
  }

  /** A gated put that finds its blob present, having read nothing, changes nothing shared. */
  lemma FoundPresentRuns(c: Config, s: State, d: Digest)
    requires d !in s.shared.accounted && d in s.shared.live
    ensures var k := |s.writers|;
            var acts := [StartGated(d)] + [FindPresent(k), Account(k), DropGate(k)];
            Runs(c, s, acts) && After(c, s, acts).shared == s.shared && After(c, s, acts).writers == s.writers + [Finished]
  {
    var k := |s.writers|;
    var s1 := With(s, s.shared, Gated(d, 0, Streaming), 0, s.top);
    var s2 := With(s, s.shared, Gated(d, 0, Published), 0, s.top);
    var s3 := With(s, s.shared, Gated(d, 0, Accounted), 0, s.top);
    assert Next(c, s1, FindPresent(k)) == s2;
    assert Next(c, s2, Account(k)) == s3;
    assert Next(c, s3, DropGate(k)) == With(s, s.shared, Finished, 0, s.top);
    ThreeSteps(c, s1, FindPresent(k), Account(k), DropGate(k));
    RunCons(c, s, StartGated(d), s1, [FindPresent(k), Account(k), DropGate(k)]);
  }

  /** A corrupted file is quarantined at the length it then has, and what that exceeds its charge
      by is what the quarantine adds. */
  lemma CorruptQuarantined(c: Config, s: State, d: Digest, length: nat, id: QuarantineId)
    requires d in s.shared.live && d in s.shared.accounted && d !in s.shared.fastInflight
    requires id.digest == d && id !in s.shared.quarantined
    ensures var acts := [Corrupt(d, length)] + ([Quarantine(d, id)] + []);
            && Runs(c, s, acts)
            && var s', charge := After(c, s, acts), s.shared.accounted[d];
               && s'.shared.live == s.shared.live - {d} && s'.shared.quarantined == s.shared.quarantined[id := length]
               && s'.growth == s.growth + if length > charge then length - charge else 0
  {
    var s1 := s.(shared := s.shared.(live := s.shared.live[d := length]));
    var s2 := Next(c, s1, Quarantine(d, id));
    assert s2.shared.live == s.shared.live - {d};
    RunCons(c, s1, Quarantine(d, id), s2, []);
    RunCons(c, s, Corrupt(d, length), s1, [Quarantine(d, id)] + []);
  }

  /** Registering and deregistering cancel. */
  lemma Registration(sh: Shared, d: Digest, length: nat, over: bool)
    requires d in sh.fastInflight ==> sh.fastInflight[d] > 0
    ensures ReleaseFast(Land(RegisterFast(sh, d), d, length, over), d) == Land(sh, d, length, over)
  {
    var landed := Land(sh, d, length, over);
    assert Land(RegisterFast(sh, d), d, length, over) == RegisterFast(landed, d);
    RegisterUndone(landed, d);
  }

  lemma RegisterUndone(sh: Shared, d: Digest)
    requires d in sh.fastInflight ==> sh.fastInflight[d] > 0
    ensures ReleaseFast(RegisterFast(sh, d), d) == sh
  {
    var counts, more := sh.fastInflight, RegisterFast(sh, d).fastInflight;
    if d in counts {
      assert more[d := more[d] - 1] == counts;
    } else {
      assert more - {d} == counts;
    }
  }

  lemma ThreeSteps(c: Config, s: State, a: Action, b: Action, e: Action)
    requires Enabled(c, s, a) && Enabled(c, Next(c, s, a), b) && Enabled(c, Next(c, Next(c, s, a), b), e)
    ensures Runs(c, s, [a, b, e]) && After(c, s, [a, b, e]) == Next(c, Next(c, Next(c, s, a), b), e)
  {
    var one := RunSnoc(c, s, [], a);
    var two := RunSnoc(c, s, one, b);
    var three := RunSnoc(c, s, two, e);
    assert three == [a, b, e];
  }

  /** A quarantine step neither frees nor adds a byte on disk. */
  lemma QuarantineConserves(c: Config, s: State, d: Digest, id: QuarantineId)
    requires Enabled(c, s, Quarantine(d, id))
    ensures var sh := Next(c, s, Quarantine(d, id)).shared;
            SumMap(sh.live) + SumMap(sh.quarantined) == SumMap(s.shared.live) + SumMap(s.shared.quarantined)
  {
    MoveAsideConserves(s.shared, d, id);
  }

  /** A copy of `d` is on disk, live or set aside. */
  ghost predicate OnDisk(sh: Shared, d: Digest) {
    d in sh.live || exists id :: id in sh.quarantined && id.digest == d
  }

  lemma OnDiskStep(c: Config, s: State, a: Action, d: Digest)
    requires Enabled(c, s, a) && OnDisk(s.shared, d)
    ensures OnDisk(Next(c, s, a).shared, d)
  {
    var now := Next(c, s, a).shared;
    if d !in now.live {
      if d in s.shared.live {
        assert a.id in now.quarantined;
      } else {
        var id :| id in s.shared.quarantined && id.digest == d;
        assert id in now.quarantined;
      }
    }
  }

  // ---- Whole runs ----

  /** A store just opened over any backend: seeded from it, nothing in flight. */
  ghost predicate Init(c: Config, s: State) {
    && Balanced(s.shared)
    && s.shared.accounted == s.shared.live
    && s.shared.fastInflight == map[]
    && s.shared.pending == 0
    && s.writers == [] && s.clock == 0 && s.top == 0 && s.growth == 0
  }

  /** Every action of the run can be taken where it is taken. */
  ghost predicate Runs(c: Config, s: State, acts: seq<Action>)
    decreases |acts|
  {
    |acts| == 0 || (Enabled(c, s, acts[0]) && Runs(c, Next(c, s, acts[0]), acts[1..]))
  }

  ghost function After(c: Config, s: State, acts: seq<Action>): State
    requires Runs(c, s, acts)
    decreases |acts|
  {
    if |acts| == 0 then s else After(c, Next(c, s, acts[0]), acts[1..])
  }

  /** One more action at the end of a run. */
  lemma {:induction false} RunSnoc(c: Config, s: State, acts: seq<Action>, a: Action) returns (longer: seq<Action>)
    requires Runs(c, s, acts) && Enabled(c, After(c, s, acts), a)
    ensures longer == acts + [a]
    ensures Runs(c, s, longer) && After(c, s, longer) == Next(c, After(c, s, acts), a)
    decreases |acts|
  {
    longer := acts + [a];
    if |acts| == 0 {
      assert longer[1..] == [];
    } else {
      var tail := RunSnoc(c, Next(c, s, acts[0]), acts[1..], a);
      assert longer[1..] == tail;
    }
  }

  /** What holds at every capacity. */
  ghost predicate Inv(c: Config, s: State) {
    PendingExact(s) && Balanced(s.shared) && FastExact(s) && HeldCharged(c, s)
  }

  lemma {:induction false} InvHolds(c: Config, s: State, acts: seq<Action>)
    requires Runs(c, s, acts) && Inv(c, s)
    ensures Inv(c, After(c, s, acts))
    decreases |acts|
  {
    if |acts| > 0 {
      var a := acts[0];
      PendingStep(c, s, a);
      BalanceStep(c, s, a);
      FastStep(c, s, a);
      HeldStep(c, s, a);
      InvHolds(c, Next(c, s, a), acts[1..]);
    }
  }

  lemma {:induction false} CapacityInvHolds(c: Config, s: State, acts: seq<Action>, bound: nat)
    requires Runs(c, s, acts) && PendingExact(s) && Balanced(s.shared) && CapacityInv(s, bound)
    requires c.capacity < U64_MAX && c.capacity <= bound
    ensures CapacityInv(After(c, s, acts), bound)
    decreases |acts|
  {
    if |acts| > 0 {
      var a := acts[0];
      PendingStep(c, s, a);
      BalanceStep(c, s, a);
      CapacityStep(c, s, a, bound);
      CapacityInvHolds(c, Next(c, s, a), acts[1..], bound);
    }
  }

  /** Capacity is a hard ceiling: whatever the interleaving, committed bytes plus the bytes
      writers were let through never pass the larger of the capacity and the bytes found at
      start, save by what quarantine itself added. At a capacity of `u64::MAX` this is asked of
      states in which the counters fit 64 bits; below it, of all. */
  lemma CapacityHolds(c: Config, s0: State, acts: seq<Action>)
    requires Init(c, s0) && Runs(c, s0, acts)
    requires c.capacity <= U64_MAX
    requires c.capacity == U64_MAX ==> After(c, s0, acts).shared.mirror + After(c, s0, acts).shared.pending <= U64_MAX
    ensures var s := After(c, s0, acts);
            s.shared.mirror + Total(Accepted, s.writers)
              <= Max(c.capacity, s0.shared.committed) + s.growth
  {
    if c.capacity < U64_MAX {
      CapacityInvHolds(c, s0, acts, Max(c.capacity, s0.shared.committed));
    } else {
      InvHolds(c, s0, acts);
      ReservedCovers(After(c, s0, acts).writers, 0);
    }
  }

  /** Every non-empty blob the backend holds is charged, or its publisher still holds the
      reservation for exactly its bytes. */
  lemma HeldImpliesCharged(c: Config, s0: State, acts: seq<Action>, d: Digest)
    requires Init(c, s0) && Runs(c, s0, acts)
    requires d in After(c, s0, acts).shared.live && c.len(d) > 0
    ensures var s := After(c, s0, acts);
            || d in s.shared.accounted
            || exists j :: 0 <= j < |s.writers| && Holds(c, s.writers[j], d)
  {
    InvHolds(c, s0, acts);
  }

  /** A quarantine is postponed exactly while some re-put of the blob is registered. */
  lemma PostponedExactly(c: Config, s0: State, acts: seq<Action>, d: Digest, id: QuarantineId)
    requires Init(c, s0) && Runs(c, s0, acts) && d in After(c, s0, acts).shared.live
    requires Enabled(c, After(c, s0, acts), Quarantine(d, id))
    ensures var s := After(c, s0, acts);
            d in Next(c, s, Quarantine(d, id)).shared.live <==> Fast(d) in s.writers
  {
    InvHolds(c, s0, acts);
    var s := After(c, s0, acts);
    assert FastAgrees(s.shared, s.writers, d);
    SomeFast(s.writers, d);
  }

  /** A write-only store never lets go of a blob: once held, a copy is on disk in every later
      state, live or quarantined. */
  lemma {:induction false} NeverLetGo(c: Config, s: State, acts: seq<Action>, d: Digest)
    requires Runs(c, s, acts) && OnDisk(s.shared, d)
    ensures OnDisk(After(c, s, acts).shared, d)
    decreases |acts|
  {
    if |acts| > 0 {
      OnDiskStep(c, s, acts[0], d);
      NeverLetGo(c, Next(c, s, acts[0]), acts[1..], d);
    }
  }

  /** The books balance in every reachable state, reservations are exactly what live gates
      hold (so none are left once every writer is done), and no subtraction ever underflows. */
  lemma BooksBalance(c: Config, s0: State, acts: seq<Action>)
    requires Init(c, s0) && Runs(c, s0, acts)
    ensures var s := After(c, s0, acts);
            && s.shared.committed == SumMap(s.shared.accounted) + SumMap(s.shared.quarantined)
            && s.shared.mirror == s.shared.committed
            && s.shared.pending == Total(Pending, s.writers)
    ensures var s := After(c, s0, acts);
            (forall j :: 0 <= j < |s.writers| ==> !s.writers[j].Gated?) ==> s.shared.pending == 0
    ensures var s := After(c, s0, acts);
            forall a | Enabled(c, s, a) ::
              && (a.GiveBack? ==> s.writers[a.i].phase.n <= s.shared.pending)
              && (a.DropGate? ==> s.writers[a.i].mine <= s.shared.pending)
              && (a.FastDrop? ==> s.writers[a.i].digest in s.shared.fastInflight
                                  && s.shared.fastInflight[s.writers[a.i].digest] >= 1)
              && (a.Quarantine? ==> Credit(s.shared, a.d) <= s.shared.committed)
  {
    InvHolds(c, s0, acts);
    var s := After(c, s0, acts);
    if forall j :: 0 <= j < |s.writers| ==> !s.writers[j].Gated? {
      NoGatesNoPending(s.writers);
    }
    forall a | Enabled(c, s, a)
      ensures a.GiveBack? ==> s.writers[a.i].phase.n <= s.shared.pending
      ensures a.DropGate? ==> s.writers[a.i].mine <= s.shared.pending
      ensures a.FastDrop? ==> s.writers[a.i].digest in s.shared.fastInflight
                              && s.shared.fastInflight[s.writers[a.i].digest] >= 1
      ensures a.Quarantine? ==> Credit(s.shared, a.d) <= s.shared.committed
    {
      PendingStep(c, s, a);
      if a.FastDrop? {
        TotalUpdate(FastOn(s.writers[a.i].digest), s.writers, a.i, Finished);
        assert FastAgrees(s.shared, s.writers, s.writers[a.i].digest);
      }
      if a.Quarantine? {
        MoveAsideKeepsBalance(s.shared, a.d, a.id);
      }
    }
  }

  lemma {:induction false} NoGatesNoPending(ws: seq<Writer>)
    requires forall j :: 0 <= j < |ws| ==> !ws[j].Gated?
    ensures Total(Pending, ws) == 0
  {
    if |ws| > 0 {
      NoGatesNoPending(ws[..|ws| - 1]);
    }
  }

  const EMPTY: Shared := Shared(map[], map[], map[], 0, 0, 0, map[])

  /** One writer of `d` that was let through four bytes and has published nothing yet. */
  function LetThrough(d: Digest): State {
    State(EMPTY.(pending := 4), [Gated(d, 4, Streaming)], 1, 1, 0)
  }

  lemma ReachLetThrough(c: Config, d: Digest) returns (acts: seq<Action>)
    requires c.capacity == 10
    ensures Runs(c, State(EMPTY, [], 0, 0, 0), acts) && After(c, State(EMPTY, [], 0, 0, 0), acts) == LetThrough(d)
  {
    var s0 := State(EMPTY, [], 0, 0, 0);
    acts := [];
    acts := RunSnoc(c, s0, acts, StartGated(d));
    assert After(c, s0, acts) == State(EMPTY, [Gated(d, 0, Streaming)], 0, 0, 0);
    acts := RunSnoc(c, s0, acts, Reserve(0, 4));
    assert After(c, s0, acts) == State(EMPTY.(pending := 4), [Gated(d, 0, Reserved(4, 0, 0))], 1, 0, 0);
    acts := RunSnoc(c, s0, acts, Check(0));
  }

  /** The next three steps from there: publish, quarantine, charge. */
  lemma ChargeAfterQuarantine(c: Config, d: Digest)
    requires c.len(d) == 4
    ensures var s := LetThrough(d);
            && Enabled(c, s, Publish(0, true))
            && var s1 := Next(c, s, Publish(0, true));
               && Enabled(c, s1, Quarantine(d, QuarantineId(d, 0)))
               && var s2 := Next(c, s1, Quarantine(d, QuarantineId(d, 0)));
                  && Enabled(c, s2, Account(0))
                  && d in Next(c, s2, Account(0)).shared.accounted && d !in Next(c, s2, Account(0)).shared.live
  {
    var s1 := Next(c, LetThrough(d), Publish(0, true));
    assert s1.writers == [Gated(d, 4, Published)];
  }

  /** "Accounted implies held" is not an invariant: a quarantine that lands between a
      writer's publish and its charge leaves a charge for a blob no longer held. */
  lemma AccountedNeedNotBeHeld(d: Digest) returns (c: Config, s0: State, acts: seq<Action>)
    ensures Init(c, s0) && Runs(c, s0, acts)
    ensures d in After(c, s0, acts).shared.accounted && d !in After(c, s0, acts).shared.live
  {
    c := Config(10, _ => 4);
    s0 := State(EMPTY, [], 0, 0, 0);
    acts := ReachLetThrough(c, d);
    ChargeAfterQuarantine(c, d);
    acts := RunSnoc(c, s0, acts, Publish(0, true));
    acts := RunSnoc(c, s0, acts, Quarantine(d, QuarantineId(d, 0)));
    acts := RunSnoc(c, s0, acts, Account(0));
  }

  /** One writer that was let through `n` bytes, all of them pending. */
  function Holding(d: Digest, n: nat, clock: nat): State {
    State(EMPTY.(pending := n), [Gated(d, n, Streaming)], clock, clock, 0)
  }

  /** At `u64::MAX` the gate lets `more` bytes through, whatever is pending. */
  lemma LetMoreThrough(c: Config, d: Digest, n: nat, clock: nat, more: nat)
    requires c.capacity == U64_MAX
    ensures Enabled(c, Holding(d, n, clock), Reserve(0, more))
    ensures var s := Next(c, Holding(d, n, clock), Reserve(0, more));
            Enabled(c, s, Check(0)) && Next(c, s, Check(0)) == Holding(d, n + more, clock + 1)
  {
    var s := Next(c, Holding(d, n, clock), Reserve(0, more));
    assert s.writers == [Gated(d, n, Reserved(more, n, clock))];
    GateIsExact(c.capacity, 0, n, more);
  }

  lemma HoldingTotals(d: Digest, n: nat, clock: nat)
    ensures Total(Accepted, Holding(d, n, clock).writers) == n
  {
    TotalAppend(Accepted, [], Gated(d, n, Streaming));
    assert [] + [Gated(d, n, Streaming)] == [Gated(d, n, Streaming)];
  }

  lemma ReachHolding(c: Config, d: Digest, n: nat) returns (acts: seq<Action>)
    requires c.capacity == U64_MAX
    ensures Runs(c, State(EMPTY, [], 0, 0, 0), acts) && After(c, State(EMPTY, [], 0, 0, 0), acts) == Holding(d, n, 1)
  {
    var s0 := State(EMPTY, [], 0, 0, 0);
    acts := RunSnoc(c, s0, [], StartGated(d));
    assert After(c, s0, acts) == Holding(d, 0, 0);
    LetMoreThrough(c, d, 0, 0, n);
    acts := RunSnoc(c, s0, acts, Reserve(0, n));
    acts := RunSnoc(c, s0, acts, Check(0));
  }

  lemma OpensEmpty(c: Config)
    ensures Init(c, State(EMPTY, [], 0, 0, 0))
  {
  }

  /** Committed and let-through bytes pass the ceiling that `CapacityHolds` puts on them. */
  ghost predicate PassesCeiling(c: Config, s0: State, s: State) {
    s.shared.mirror + Total(Accepted, s.writers) > Max(c.capacity, s0.shared.committed) + s.growth
  }

  lemma HoldingPasses(c: Config, s0: State, d: Digest, n: nat)
    requires c.capacity == U64_MAX && n > U64_MAX && s0.shared.committed == 0
    ensures Holding(d, n, 1).shared.mirror + Holding(d, n, 1).shared.pending > U64_MAX
    ensures PassesCeiling(c, s0, Holding(d, n, 1))
  {
    HoldingTotals(d, n, 1);
  }

  /** What the proviso at `u64::MAX` is for: counters of unbounded size, as here, let a run
      reserve any number `n` of bytes past 2^64, and the saturated sum then still does not pass
      the capacity. A 64-bit `pending` cannot hold that many. */
  lemma UnboundedCountersPassTop(c: Config, d: Digest, n: nat) returns (s0: State, acts: seq<Action>)
    requires c.capacity == U64_MAX && n > U64_MAX
    ensures Init(c, s0) && Runs(c, s0, acts)
    ensures After(c, s0, acts).shared.mirror + After(c, s0, acts).shared.pending > U64_MAX
    ensures PassesCeiling(c, s0, After(c, s0, acts))
  {
    s0 := State(EMPTY, [], 0, 0, 0);
    OpensEmpty(c);
    acts := ReachHolding(c, d, n);
    HoldingPasses(c, s0, d, n);
  }

  // ---- Bytes on disk, when nothing is corrupted ----

  /** Every file and every charge has the length of the content its digest names. */
  ghost predicate Intact(c: Config, s: State) {
    && (forall d :: d in s.shared.live ==> s.shared.live[d] == c.len(d))
    && (forall d :: d in s.shared.accounted ==> s.shared.accounted[d] == c.len(d))
    && (forall j :: 0 <= j < |s.writers| ==> IntactWriter(c, s.writers[j]))
  }

  ghost predicate NoCorruption(acts: seq<Action>) {
    forall j :: 0 <= j < |acts| ==> !acts[j].Corrupt?
  }

  predicate IntactWriter(c: Config, w: Writer) {
    w.Gated? && w.phase.Published? ==> w.mine == c.len(w.digest) || w.mine == 0
  }

  lemma IntactWriters(c: Config, s: State, a: Action, j: nat)
    requires Enabled(c, s, a) && j < |Next(c, s, a).writers|
    requires j < |s.writers| ==> IntactWriter(c, s.writers[j])
    ensures IntactWriter(c, Next(c, s, a).writers[j])
  {
  }

  lemma IntactStep(c: Config, s: State, a: Action)
    requires Enabled(c, s, a) && !a.Corrupt? && Intact(c, s)
    ensures Intact(c, Next(c, s, a))
  {
    var s' := Next(c, s, a);
    forall j | 0 <= j < |s'.writers| ensures IntactWriter(c, s'.writers[j]) {
      IntactWriters(c, s, a, j);
    }
    assert a.Account? ==> IntactWriter(c, s.writers[a.i]);
  }

  lemma {:induction false} IntactHolds(c: Config, s: State, acts: seq<Action>)
    requires Runs(c, s, acts) && NoCorruption(acts) && Intact(c, s)
    ensures Intact(c, After(c, s, acts))
    decreases |acts|
  {
    if |acts| > 0 {
      assert !acts[0].Corrupt?;
      IntactStep(c, s, acts[0]);
      IntactHolds(c, Next(c, s, acts[0]), acts[1..]);
    }
  }

  /** Blobs are paid for by distinct charges and distinct reservations. */
  lemma {:induction false} LiveIsPaidFor(c: Config, live: map<Digest, nat>, accounted: map<Digest, nat>, ws: seq<Writer>)
    requires forall d :: d in live ==> live[d] == c.len(d)
    requires forall d :: d in accounted ==> accounted[d] == c.len(d)
    requires forall d :: d in live && d !in accounted && c.len(d) != 0 ==>
                           exists j :: 0 <= j < |ws| && Holds(c, ws[j], d)
    ensures SumMap(live) <= SumMap(accounted) + Total(Accepted, ws)
    decreases |live|
  {
    if live != map[] {
      var d :| d in live;
      SumMapRemove(live, d);
      if d in accounted {
        SumMapRemove(accounted, d);
        LiveIsPaidFor(c, live - {d}, accounted - {d}, ws);
      } else if c.len(d) == 0 {
        LiveIsPaidFor(c, live - {d}, accounted, ws);
      } else {
        var j :| 0 <= j < |ws| && Holds(c, ws[j], d);
        TotalUpdate(Accepted, ws, j, Finished);
        var rest := ws[j := Finished];
        forall e | e in live - {d} && e !in accounted && c.len(e) != 0
          ensures exists k :: 0 <= k < |rest| && Holds(c, rest[k], e)
        {
          var k :| 0 <= k < |ws| && Holds(c, ws[k], e);
          assert Holds(c, rest[k], e);
        }
        LiveIsPaidFor(c, live - {d}, accounted, rest);
      }
    }
  }

  /** The end-to-end promise: with nothing corrupted, the bytes on disk, live and
      quarantined together, never pass the larger of the capacity and the bytes found at
      start, save by what quarantine added. */
  lemma DiskStaysWithinCapacity(c: Config, s0: State, acts: seq<Action>)
    requires Init(c, s0) && Runs(c, s0, acts)
    requires c.capacity <= U64_MAX
    requires c.capacity == U64_MAX ==> After(c, s0, acts).shared.mirror + After(c, s0, acts).shared.pending <= U64_MAX
    requires NoCorruption(acts) && (forall d :: d in s0.shared.live ==> s0.shared.live[d] == c.len(d))
    ensures var s := After(c, s0, acts);
            SumMap(s.shared.live) + SumMap(s.shared.quarantined)
              <= Max(c.capacity, s0.shared.committed) + s.growth
  {
    var s := After(c, s0, acts);
    InvHolds(c, s0, acts);
    IntactHolds(c, s0, acts);
    LiveIsPaidFor(c, s.shared.live, s.shared.accounted, s.writers);
    CapacityHolds(c, s0, acts);
  }
}
