/** The on-disk store: puts, repairs and reclaims as the file operations they are, in every
    interleaving, with crashes and bit rot. */
module Disk {
  import opened Core
  import opened Digests

  /** Every path the operations below use. */
  datatype File =
    | Canon(digest: Digest)
    | Tmp(id: nat)
    | Aside(digest: Digest, slot: nat)

  type Files = map<File, Bytes>

  /** One operation under way. `key` is the digest a keyed put expects; `Sealed` holds the
      digest of what was written. */
  datatype Op =
    | Writing(id: nat, source: Bytes, done: nat, algo: Algo, key: Option<Digest>)
    | Sealed(id: nat, digest: Digest)
    | Landing(id: nat, digest: Digest)     // holds the commit lock
    | Verifying(digest: Digest)            // holds the commit lock
    | Condemned(digest: Digest)            // verdict corrupt, still holds the commit lock
    | Finished

  /** `counter` names temporary files; `rotted` says whether bit rot ever happened. */
  datatype State = State(files: Files, ops: seq<Op>, counter: nat, rotted: bool)

  datatype Action =
    | BeginPut(source: Bytes, key: Option<Digest>)
    | Append(i: nat, n: nat)
    | Seal(i: nat)
    | LockPut(i: nat)
    | Rename(i: nat)
    | FailPut(i: nat, removed: bool)
    | LockRepair(digest: Digest)
    | Verify(i: nat)
    | Unlink(i: nat)
    | FailRepair(i: nat)
    | Reclaim(digest: Digest)
    | MoveAside(digest: Digest, slot: nat)
    | Rot(file: File, bytes: Bytes)
    | Reopen

  predicate HasLock(op: Op) {
    op.Landing? || op.Verifying? || op.Condemned?
  }

  predicate HasTmp(op: Op) {
    op.Writing? || op.Sealed? || op.Landing?
  }

  predicate Locked(s: State) {
    exists j :: 0 <= j < |s.ops| && HasLock(s.ops[j])
  }

  predicate Enabled(h: Hash, s: State, a: Action) {
    match a
    case BeginPut(_, _) => true
    case Append(i, n) => i < |s.ops| && s.ops[i].Writing? && s.ops[i].done + n <= |s.ops[i].source|
    case Seal(i) => i < |s.ops| && s.ops[i].Writing? && s.ops[i].done == |s.ops[i].source|
    case LockPut(i) => i < |s.ops| && s.ops[i].Sealed? && !Locked(s)
    case Rename(i) => i < |s.ops| && s.ops[i].Landing?
    case FailPut(i, _) => i < |s.ops| && HasTmp(s.ops[i])
    case LockRepair(_) => !Locked(s)
    case Verify(i) => i < |s.ops| && s.ops[i].Verifying?
    case Unlink(i) => i < |s.ops| && s.ops[i].Condemned?
    case FailRepair(i) => i < |s.ops| && (s.ops[i].Verifying? || s.ops[i].Condemned?)
    case Reclaim(_) => true
    case MoveAside(d, slot) => Aside(d, slot) !in s.files
    case Rot(f, bytes) => f in s.files && (f.Canon? ==> !Verifies(h, f.digest, bytes))
    case Reopen => true
  }

  function SetOp(s: State, i: nat, op: Op): State
    requires i < |s.ops|
  {
    s.(ops := s.ops[i := op])
  }

  /** Rename replaces the target; a source that is gone leaves everything as it was. */
  function Renamed(files: Files, from: File, to: File): Files {
    if from in files then (files - {from})[to := files[from]] else files
  }

  /** Opening a store discards every temporary file. */
  function Discarded(files: Files): Files {
    map f | f in files && !f.Tmp? :: files[f]
  }

  function DoSeal(h: Hash, s: State, i: nat): State
    requires Enabled(h, s, Seal(i))
  {
    var op := s.ops[i];
    var d := Compute(h, op.algo, op.source);
    if op.key.Some? && op.key.value != d
    then SetOp(s, i, Finished).(files := s.files - {Tmp(op.id)})
    else SetOp(s, i, Sealed(op.id, d))
  }

  function Next(h: Hash, s: State, a: Action): State
    requires Enabled(h, s, a)
  {
    match a
    case BeginPut(source, key) =>
      s.(files := s.files[Tmp(s.counter) := []], counter := s.counter + 1,
         ops := s.ops + [Writing(s.counter, source, 0, if key.Some? then key.value.algo else Blake3, key)])
    case Append(i, n) =>
      var op := s.ops[i];
      var f := Tmp(op.id);
      var chunk := op.source[op.done..op.done + n];
      SetOp(s, i, op.(done := op.done + n))
      .(files := if f in s.files then s.files[f := s.files[f] + chunk] else s.files)
    case Seal(i) => DoSeal(h, s, i)
    case LockPut(i) => SetOp(s, i, Landing(s.ops[i].id, s.ops[i].digest))
    case Rename(i) =>
      SetOp(s, i, Finished).(files := Renamed(s.files, Tmp(s.ops[i].id), Canon(s.ops[i].digest)))
    case FailPut(i, removed) =>
      SetOp(s, i, Finished).(files := if removed then s.files - {Tmp(s.ops[i].id)} else s.files)
    case LockRepair(d) => s.(ops := s.ops + [Verifying(d)])
    case Verify(i) =>
      var d := s.ops[i].digest;
      if Canon(d) in s.files && !Verifies(h, d, s.files[Canon(d)]) then SetOp(s, i, Condemned(d))
      else SetOp(s, i, Finished)
    case Unlink(i) => SetOp(s, i, Finished).(files := s.files - {Canon(s.ops[i].digest)})
    case FailRepair(i) => SetOp(s, i, Finished)
    case Reclaim(d) => s.(files := s.files - {Canon(d)})
    case MoveAside(d, slot) => s.(files := Renamed(s.files, Canon(d), Aside(d, slot)))
    case Rot(f, bytes) => s.(files := s.files[f := bytes], rotted := true)
    case Reopen => s.(files := Discarded(s.files), ops := [])
  }

  // ---- What every reachable state keeps ----

  /** At most one operation holds the commit lock. */
  ghost predicate OneLock(s: State) {
    forall i, j | 0 <= i < j < |s.ops| :: !(HasLock(s.ops[i]) && HasLock(s.ops[j]))
  }

  /** Temporary names are below the counter and never shared. */
  ghost predicate OwnTmp(s: State) {
    && (forall i :: 0 <= i < |s.ops| && HasTmp(s.ops[i]) ==> s.ops[i].id < s.counter)
    && (forall i, j | 0 <= i < j < |s.ops| && HasTmp(s.ops[i]) && HasTmp(s.ops[j]) :: s.ops[i].id != s.ops[j].id)
  }

  /** What a put has written so far is what its source held. */
  predicate Faithful(h: Hash, files: Files, op: Op) {
    match op
    case Writing(id, source, done, algo, key) =>
      done <= |source| && (Tmp(id) in files ==> files[Tmp(id)] == source[..done])
    case Sealed(id, d) => Tmp(id) in files ==> Verifies(h, d, files[Tmp(id)])
    case Landing(id, d) => Tmp(id) in files ==> Verifies(h, d, files[Tmp(id)])
    case _ => true
  }

  /** Every canonical file hashes to its digest. */
  ghost predicate Healthy(h: Hash, files: Files) {
    forall d :: Canon(d) in files ==> Verifies(h, d, files[Canon(d)])
  }

  /** Until bit rot happens. */
  ghost predicate Clean(h: Hash, s: State) {
    !s.rotted ==>
      Healthy(h, s.files) && forall i :: 0 <= i < |s.ops| ==> Faithful(h, s.files, s.ops[i])
  }

  /** A condemned file is still corrupt, because every rename onto it waits for the lock. */
  ghost predicate StillCorrupt(h: Hash, s: State) {
    forall i :: 0 <= i < |s.ops| && s.ops[i].Condemned? && Canon(s.ops[i].digest) in s.files ==>
      !Verifies(h, s.ops[i].digest, s.files[Canon(s.ops[i].digest)])
  }

  ghost predicate Inv(h: Hash, s: State) {
    OneLock(s) && OwnTmp(s) && Clean(h, s) && StillCorrupt(h, s)
  }

  /** The actions by which one operation moves on. */
  predicate Moves(a: Action) {
    a.Append? || a.Seal? || a.LockPut? || a.Rename? || a.FailPut? || a.Verify? || a.Unlink? || a.FailRepair?
  }

  lemma MoveOn(h: Hash, s: State, a: Action)
    requires Enabled(h, s, a) && Moves(a)
    ensures a.i < |s.ops| == |Next(h, s, a).ops|
    ensures Next(h, s, a).ops == s.ops[a.i := Next(h, s, a).ops[a.i]]
    ensures Next(h, s, a).counter == s.counter
    ensures HasLock(Next(h, s, a).ops[a.i]) ==> HasLock(s.ops[a.i]) || !Locked(s)
    ensures var op := Next(h, s, a).ops[a.i]; HasTmp(op) ==> HasTmp(s.ops[a.i]) && op.id == s.ops[a.i].id
  {
  }

  lemma LockSet(s: State, i: nat, op: Op)
    requires OneLock(s) && i < |s.ops|
    requires HasLock(op) ==> HasLock(s.ops[i]) || !Locked(s)
    ensures OneLock(SetOp(s, i, op))
  {
  }

  lemma LockStep(h: Hash, s: State, a: Action)
    requires Enabled(h, s, a) && OneLock(s)
    ensures OneLock(Next(h, s, a))
  {
    if Moves(a) {
      MoveOn(h, s, a);
      LockSet(s, a.i, Next(h, s, a).ops[a.i]);
    }
  }

  lemma OwnTmpSet(s: State, i: nat, op: Op)
    requires OwnTmp(s) && i < |s.ops|
    requires HasTmp(op) ==> HasTmp(s.ops[i]) && op.id == s.ops[i].id
    ensures OwnTmp(SetOp(s, i, op))
  {
  }

  lemma OwnTmpStep(h: Hash, s: State, a: Action)
    requires Enabled(h, s, a) && OwnTmp(s)
    ensures OwnTmp(Next(h, s, a))
  {
    if Moves(a) {
      MoveOn(h, s, a);
      OwnTmpSet(s, a.i, Next(h, s, a).ops[a.i]);
    }
  }

  /** A step by one operation leaves every other one's temporary file alone. */
  lemma OthersFaithful(h: Hash, s: State, a: Action, i: nat)
    requires Enabled(h, s, a) && OwnTmp(s) && !a.Rot? && !a.Reopen?
    requires i < |s.ops| && Next(h, s, a).ops[i] == s.ops[i] && Faithful(h, s.files, s.ops[i])
    ensures Faithful(h, Next(h, s, a).files, s.ops[i])
  {
  }

  lemma OwnFaithful(h: Hash, s: State, a: Action)
    requires a.Append? || a.Seal? || a.LockPut?
    requires Enabled(h, s, a) && Faithful(h, s.files, s.ops[a.i])
    ensures Faithful(h, Next(h, s, a).files, Next(h, s, a).ops[a.i])
  {
    if s.ops[a.i].Writing? {
      var op := s.ops[a.i];
      assert op.source[..|op.source|] == op.source;
      if a.Append? {
        assert op.source[..op.done + a.n] == op.source[..op.done] + op.source[op.done..op.done + a.n];
      }
    }
  }

  lemma HealthyStep(h: Hash, s: State, a: Action)
    requires Enabled(h, s, a) && !a.Rot? && Healthy(h, s.files)
    requires a.Rename? ==> Faithful(h, s.files, s.ops[a.i])
    ensures Healthy(h, Next(h, s, a).files)
  {
  }

  lemma CleanStep(h: Hash, s: State, a: Action)
    requires Enabled(h, s, a) && OwnTmp(s) && Clean(h, s)
    ensures Clean(h, Next(h, s, a))
  {
    var s' := Next(h, s, a);
    if !s'.rotted {
      HealthyStep(h, s, a);
      forall i | 0 <= i < |s'.ops| ensures Faithful(h, s'.files, s'.ops[i]) {
        if i < |s.ops| {
          assert Faithful(h, s.files, s.ops[i]);
          if s'.ops[i] == s.ops[i] {
            OthersFaithful(h, s, a, i);
          } else if a.Append? || a.Seal? || a.LockPut? {
            OwnFaithful(h, s, a);
          }
        }
      }
    }
  }

  lemma CorruptStep(h: Hash, s: State, a: Action)
    requires Enabled(h, s, a) && OneLock(s) && StillCorrupt(h, s)
    ensures StillCorrupt(h, Next(h, s, a))
  {
    var s' := Next(h, s, a);
    if a.Rename? {
      assert HasLock(s.ops[a.i]);
      assert forall i | 0 <= i < |s'.ops| && s'.ops[i].Condemned? :: HasLock(s.ops[i]);
    }
  }

  // ---- Whole runs ----

  ghost predicate Init(h: Hash, s: State) {
    s.ops == [] && !s.rotted && Healthy(h, s.files)
  }

  ghost predicate Runs(h: Hash, s: State, acts: seq<Action>)
    decreases |acts|
  {
    acts == [] || (Enabled(h, s, acts[0]) && Runs(h, Next(h, s, acts[0]), acts[1..]))
  }

  ghost function After(h: Hash, s: State, acts: seq<Action>): State
    requires Runs(h, s, acts)
    decreases |acts|
  {
    if acts == [] then s else After(h, Next(h, s, acts[0]), acts[1..])
  }

  lemma InvStep(h: Hash, s: State, a: Action)
    requires Inv(h, s) && Enabled(h, s, a)
    ensures Inv(h, Next(h, s, a))
  {
    LockStep(h, s, a);
    OwnTmpStep(h, s, a);
    CleanStep(h, s, a);
    CorruptStep(h, s, a);
  }

  lemma {:induction false} InvHolds(h: Hash, s: State, acts: seq<Action>)
    requires Inv(h, s) && Runs(h, s, acts)
    ensures Inv(h, After(h, s, acts))
    decreases |acts|
  {
    if acts != [] {
      InvStep(h, s, acts[0]);
      InvHolds(h, Next(h, s, acts[0]), acts[1..]);
    }
  }

  lemma {:induction false} RotShows(h: Hash, s: State, acts: seq<Action>)
    requires Runs(h, s, acts) && (forall a | a in acts :: !a.Rot?)
    ensures After(h, s, acts).rotted == s.rotted
    decreases |acts|
  {
    if acts != [] {
      RotShows(h, Next(h, s, acts[0]), acts[1..]);
    }
  }

  /** However puts, repairs, reclaims, failures, crashes and reopens interleave, every file
      at a canonical path hashes to its digest, as long as the medium keeps what it was
      given. */
  lemma CanonicalFilesVerify(h: Hash, s: State, acts: seq<Action>, d: Digest)
    requires Init(h, s) && Runs(h, s, acts) && (forall a | a in acts :: !a.Rot?)
    ensures Canon(d) in After(h, s, acts).files ==> Verifies(h, d, After(h, s, acts).files[Canon(d)])
  {
    InvHolds(h, s, acts);
    RotShows(h, s, acts);
  }

  /** With bit rot at any point of the run, a repair still removes only a file that fails
      verification at the moment it is removed. */
  lemma RepairSparesHealthy(h: Hash, s: State, acts: seq<Action>, i: nat)
    requires Init(h, s) && Runs(h, s, acts) && Enabled(h, After(h, s, acts), Unlink(i))
    ensures var now := After(h, s, acts);
            forall f :: f in now.files && f !in Next(h, now, Unlink(i)).files ==>
              f == Canon(now.ops[i].digest) && !Verifies(h, f.digest, now.files[f])
  {
    InvHolds(h, s, acts);
  }

  // ---- Where committed bytes come from ----

  /** What a put was asked to store. */
  datatype Put = Put(source: Bytes, key: Option<Digest>)

  /** The puts begun so far, by the number of their temporary file. */
  type Begun = map<nat, Put>

  function Begin(s: State, a: Action, begun: Begun): Begun {
    if a.BeginPut? then begun[s.counter := Put(a.source, a.key)] else begun
  }

  /** The put committed by a step, with the digest it was committed under. */
  function Lands(s: State, a: Action, begun: Begun): set<(Put, Digest)> {
    if a.Rename? && a.i < |s.ops| && s.ops[a.i].Landing? && s.ops[a.i].id in begun
    then {(begun[s.ops[a.i].id], s.ops[a.i].digest)} else {}
  }

  /** The puts whose rename is in the run. One that fails, or that a crash ends before its
      rename, is not among them. */
  ghost function Landed(h: Hash, s: State, acts: seq<Action>, begun: Begun): set<(Put, Digest)>
    requires Runs(h, s, acts)
    decreases |acts|
  {
    if acts == [] then {}
    else Lands(s, acts[0], begun) + Landed(h, Next(h, s, acts[0]), acts[1..], Begin(s, acts[0], begun))
  }

  /** `p` was for `d`: it named no digest, or this one. */
  predicate IsFor(p: Put, d: Digest) {
    p.key == None || p.key == Some(d)
  }

  /** A put under way has its temporary file, and once sealed that holds its whole source. */
  ghost predicate TracedOp(begun: Begun, files: Files, op: Op) {
    match op
    case Writing(id, source, _, _, key) => id in begun && begun[id] == Put(source, key) && Tmp(id) in files
    case Sealed(id, d) => id in begun && Tmp(id) in files && files[Tmp(id)] == begun[id].source && IsFor(begun[id], d)
    case Landing(id, d) => id in begun && Tmp(id) in files && files[Tmp(id)] == begun[id].source && IsFor(begun[id], d)
    case _ => true
  }

  /** The whole of what some committed put for `d` was given. */
  ghost predicate FromLanded(landed: set<(Put, Digest)>, d: Digest, bytes: Bytes) {
    exists p :: (p, d) in landed && p.source == bytes && IsFor(p, d)
  }

  ghost predicate TracedFile(landed: set<(Put, Digest)>, was: Files, d: Digest, bytes: Bytes) {
    (Canon(d) in was && was[Canon(d)] == bytes) || FromLanded(landed, d, bytes)
  }

  ghost predicate TracedOps(begun: Begun, s: State) {
    forall i :: 0 <= i < |s.ops| ==> TracedOp(begun, s.files, s.ops[i])
  }

  ghost predicate TracedFiles(landed: set<(Put, Digest)>, was: Files, s: State) {
    forall d :: Canon(d) in s.files ==> TracedFile(landed, was, d, s.files[Canon(d)])
  }

  lemma TracedOthers(h: Hash, s: State, a: Action, begun: Begun, i: nat)
    requires Enabled(h, s, a) && OwnTmp(s) && !a.Rot? && !a.Reopen?
    requires i < |s.ops| && Next(h, s, a).ops[i] == s.ops[i] && TracedOp(begun, s.files, s.ops[i])
    ensures TracedOp(Begin(s, a, begun), Next(h, s, a).files, s.ops[i])
  {
  }

  lemma TracedOwn(h: Hash, s: State, a: Action, begun: Begun)
    requires Enabled(h, s, a) && Moves(a)
    requires Faithful(h, s.files, s.ops[a.i]) && TracedOp(begun, s.files, s.ops[a.i])
    ensures TracedOp(begun, Next(h, s, a).files, Next(h, s, a).ops[a.i])
  {
    if a.Seal? {
      var op := s.ops[a.i];
      assert op.source[..|op.source|] == op.source;
      assert op.key == None || op.key == Some(op.key.value);
    }
  }

  lemma TracedOpsStep(h: Hash, s: State, a: Action, begun: Begun)
    requires Enabled(h, s, a) && OwnTmp(s) && Clean(h, s) && !s.rotted && !a.Rot? && TracedOps(begun, s)
    ensures TracedOps(Begin(s, a, begun), Next(h, s, a))
  {
    var s' := Next(h, s, a);
    forall i | 0 <= i < |s'.ops| ensures TracedOp(Begin(s, a, begun), s'.files, s'.ops[i]) {
      if i < |s.ops| && s'.ops[i] == s.ops[i] {
        TracedOthers(h, s, a, begun, i);
      } else if Moves(a) {
        TracedOwn(h, s, a, begun);
      }
    }
  }

  lemma TracedFilesStep(h: Hash, s: State, a: Action, begun: Begun, landed: set<(Put, Digest)>, was: Files)
    requires Enabled(h, s, a) && !a.Rot? && TracedOps(begun, s) && TracedFiles(landed, was, s)
    ensures TracedFiles(landed + Lands(s, a, begun), was, Next(h, s, a))
  {
    var s', more := Next(h, s, a), landed + Lands(s, a, begun);
    forall d | Canon(d) in s'.files ensures TracedFile(more, was, d, s'.files[Canon(d)]) {
      if a.Rename? && d == s.ops[a.i].digest {
        assert TracedOp(begun, s.files, s.ops[a.i]);
        assert (begun[s.ops[a.i].id], d) in more;
      } else {
        assert TracedFile(landed, was, d, s.files[Canon(d)]);
        if FromLanded(landed, d, s.files[Canon(d)]) {
          var p :| (p, d) in landed && p.source == s.files[Canon(d)] && IsFor(p, d);
          assert (p, d) in more;
        }
      }
    }
  }

  lemma {:induction false} TracedHolds(h: Hash, s: State, acts: seq<Action>, begun: Begun, landed: set<(Put, Digest)>, was: Files)
    requires Inv(h, s) && !s.rotted && Runs(h, s, acts) && (forall a | a in acts :: !a.Rot?)
    requires TracedOps(begun, s) && TracedFiles(landed, was, s)
    ensures TracedFiles(landed + Landed(h, s, acts, begun), was, After(h, s, acts))
    decreases |acts|
  {
    if acts == [] {
      assert landed + {} == landed;
    } else {
      var a := acts[0];
      TracedOpsStep(h, s, a, begun);
      TracedFilesStep(h, s, a, begun, landed, was);
      InvStep(h, s, a);
      TracedHolds(h, Next(h, s, a), acts[1..], Begin(s, a, begun), landed + Lands(s, a, begun), was);
      assert landed + Landed(h, s, acts, begun)
          == landed + Lands(s, a, begun) + Landed(h, Next(h, s, a), acts[1..], Begin(s, a, begun));
    }
  }

  /** No partial or abandoned write ever shows: after any run, crashes included, a canonical
      file holds what it held at the start, or the whole of what one put of the run was given
      whose rename into that place is itself in the run, and a keyed put is never behind any
      digest but its own. */
  lemma OnlyCommittedPutsShow(h: Hash, s: State, acts: seq<Action>, d: Digest)
    requires Init(h, s) && Runs(h, s, acts) && (forall a | a in acts :: !a.Rot?)
    ensures var now := After(h, s, acts).files;
            Canon(d) in now ==>
              || (Canon(d) in s.files && s.files[Canon(d)] == now[Canon(d)])
              || exists p :: && (p, d) in Landed(h, s, acts, map[]) && p.source == now[Canon(d)]
                             && (p.key.Some? ==> p.key.value == d)
  {
    TracedHolds(h, s, acts, map[], {}, s.files);
    assert {} + Landed(h, s, acts, map[]) == Landed(h, s, acts, map[]);
  }

  /** The puts counted as committed were begun in the run. */
  lemma {:induction false} LandedWereBegun(h: Hash, s: State, acts: seq<Action>, begun: Begun, p: Put, d: Digest)
    requires Runs(h, s, acts) && (p, d) in Landed(h, s, acts, begun)
    ensures BeginPut(p.source, p.key) in acts || exists id :: id in begun && begun[id] == p
    decreases |acts|
  {
    if (p, d) !in Lands(s, acts[0], begun) {
      LandedWereBegun(h, Next(h, s, acts[0]), acts[1..], Begin(s, acts[0], begun), p, d);
    }
  }

  /** And a commit lasts: once a file is in place it is there, and healthy, through any puts,
      repairs, faults, crashes and reopens, until it is reclaimed or moved aside. */
  lemma {:induction false} CommittedStays(h: Hash, s: State, acts: seq<Action>, d: Digest)
    requires Inv(h, s) && !s.rotted && Runs(h, s, acts) && Canon(d) in s.files
    requires forall a | a in acts :: !a.Rot? && a != Reclaim(d) && !(a.MoveAside? && a.digest == d)
    ensures Canon(d) in After(h, s, acts).files && Verifies(h, d, After(h, s, acts).files[Canon(d)])
    decreases |acts|
  {
    if acts != [] {
      InvStep(h, s, acts[0]);
      CommittedStays(h, Next(h, s, acts[0]), acts[1..], d);
    }
  }

  /** A rename puts the file in place. */
  lemma RenameCommits(h: Hash, s: State, acts: seq<Action>, i: nat)
    requires Init(h, s) && Runs(h, s, acts) && (forall a | a in acts :: !a.Rot?)
    requires Enabled(h, After(h, s, acts), Rename(i))
    ensures Canon(After(h, s, acts).ops[i].digest) in Next(h, After(h, s, acts), Rename(i)).files
  {
    var begun := OpsTraced(h, s, acts, map[]);
    var now := After(h, s, acts);
    assert TracedOp(begun, now.files, now.ops[i]);
  }

  lemma {:induction false} OpsTraced(h: Hash, s: State, acts: seq<Action>, begun: Begun) returns (after: Begun)
    requires Inv(h, s) && !s.rotted && Runs(h, s, acts) && (forall a | a in acts :: !a.Rot?) && TracedOps(begun, s)
    ensures TracedOps(after, After(h, s, acts))
    decreases |acts|
  {
    if acts == [] {
      after := begun;
    } else {
      TracedOpsStep(h, s, acts[0], begun);
      InvStep(h, s, acts[0]);
      after := OpsTraced(h, Next(h, s, acts[0]), acts[1..], Begin(s, acts[0], begun));
    }
  }

  // ---- What each operation does, run alone ----

  lemma RunCons(h: Hash, s: State, a: Action, rest: seq<Action>)
    requires Enabled(h, s, a) && Runs(h, Next(h, s, a), rest)
    ensures Runs(h, s, [a] + rest) && After(h, s, [a] + rest) == After(h, Next(h, s, a), rest)
  {
    assert ([a] + rest)[1..] == rest;
  }

  lemma OneStep(h: Hash, s: State, a: Action)
    requires Enabled(h, s, a)
    ensures Runs(h, s, [a]) && After(h, s, [a]) == Next(h, s, a)
  {
    assert [a][1..] == [];
  }

  lemma TwoSteps(h: Hash, s: State, a: Action, b: Action)
    requires Enabled(h, s, a) && Enabled(h, Next(h, s, a), b)
    ensures Runs(h, s, [a, b]) && After(h, s, [a, b]) == Next(h, Next(h, s, a), b)
  {
    OneStep(h, Next(h, s, a), b);
    RunCons(h, s, a, [b]);
    assert [a] + [b] == [a, b];
  }

  lemma ThreeSteps(h: Hash, s: State, a: Action, b: Action, c: Action)
    requires Enabled(h, s, a) && Enabled(h, Next(h, s, a), b) && Enabled(h, Next(h, Next(h, s, a), b), c)
    ensures Runs(h, s, [a, b, c]) && After(h, s, [a, b, c]) == Next(h, Next(h, Next(h, s, a), b), c)
  {
    TwoSteps(h, Next(h, s, a), b, c);
    RunCons(h, s, a, [b, c]);
    assert [a] + [b, c] == [a, b, c];
  }

  lemma FiveSteps(h: Hash, s: State, a: Action, b: Action, s2: State, c: Action, d: Action, e: Action)
    requires Enabled(h, s, a) && Enabled(h, Next(h, s, a), b) && s2 == Next(h, Next(h, s, a), b)
    requires Enabled(h, s2, c) && Enabled(h, Next(h, s2, c), d) && Enabled(h, Next(h, Next(h, s2, c), d), e)
    ensures Runs(h, s, [a, b, c, d, e]) && After(h, s, [a, b, c, d, e]) == Next(h, Next(h, Next(h, s2, c), d), e)
  {
    ThreeSteps(h, s2, c, d, e);
    RunCons(h, Next(h, s, a), b, [c, d, e]);
    RunCons(h, s, a, [b] + [c, d, e]);
    assert [a] + ([b] + [c, d, e]) == [a, b, c, d, e];
  }

  /** `s` with one more operation, the put that took the next number. */
  function With(s: State, files: Files, op: Op): State {
    State(files, s.ops + [op], s.counter + 1, s.rotted)
  }

  /** A put writes its whole source. */
  lemma Written(h: Hash, s: State, source: Bytes, key: Option<Digest>)
    ensures var k, algo := |s.ops|, if key.Some? then key.value.algo else Blake3;
            var s1 := Next(h, s, BeginPut(source, key));
            && Enabled(h, s1, Append(k, |source|))
            && Next(h, s1, Append(k, |source|))
               == With(s, s.files[Tmp(s.counter) := source], Writing(s.counter, source, |source|, algo, key))
  {
    var k := |s.ops|;
    var s1 := Next(h, s, BeginPut(source, key));
    var s2 := Next(h, s1, Append(k, |source|));
    assert [] + source[0..|source|] == source;
    assert s2.ops == s.ops + [s2.ops[k]];
    assert s2.files == s.files[Tmp(s.counter) := source];
  }

  /** A put whose bytes are the expected ones comes to its rename. */
  lemma Commits(h: Hash, s: State, source: Bytes, algo: Algo, key: Option<Digest>)
    requires Tmp(s.counter) !in s.files && !Locked(s) && (key.Some? ==> key.value == Compute(h, algo, source))
    ensures var k, d := |s.ops|, Compute(h, algo, source);
            var s2 := With(s, s.files[Tmp(s.counter) := source], Writing(s.counter, source, |source|, algo, key));
            && Enabled(h, s2, Seal(k))
            && var s3 := Next(h, s2, Seal(k));
               && Enabled(h, s3, LockPut(k))
               && var s4 := Next(h, s3, LockPut(k));
                  Enabled(h, s4, Rename(k)) && Next(h, s4, Rename(k)) == With(s, s.files[Canon(d) := source], Finished)
  {
    var k, f, d := |s.ops|, Tmp(s.counter), Compute(h, algo, source);
    var s2 := With(s, s.files[f := source], Writing(s.counter, source, |source|, algo, key));
    var s3 := With(s, s.files[f := source], Sealed(s.counter, d));
    assert Next(h, s2, Seal(k)) == s3;
    assert forall j :: 0 <= j < k ==> s3.ops[j] == s.ops[j];
    var s4 := With(s, s.files[f := source], Landing(s.counter, d));
    assert Next(h, s3, LockPut(k)) == s4;
    assert Renamed(s4.files, f, Canon(d)) == s.files[Canon(d) := source];
    assert s4.ops[k := Finished] == s.ops + [Finished];
  }

  /** A put that nothing interrupts and whose key, if it has one, is the digest of its source
      leaves the source under that digest, and every other file as it was. */
  lemma PutLands(h: Hash, s: State, source: Bytes, key: Option<Digest>)
    requires Tmp(s.counter) !in s.files && (forall op | op in s.ops :: !op.Landing? && !op.Verifying? && !op.Condemned?)
    requires key.Some? ==> key.value.bytes == h(key.value.algo, source)
    ensures var k := |s.ops|;
            var acts := [BeginPut(source, key), Append(k, |source|), Seal(k), LockPut(k), Rename(k)];
            var d := if key.Some? then key.value else DigestValue(Blake3, h(Blake3, source));
            Runs(h, s, acts) && After(h, s, acts).files == s.files[Canon(d) := source]
  {
    var k, algo := |s.ops|, if key.Some? then key.value.algo else Blake3;
    assert !Locked(s);
    Written(h, s, source, key);
    var s2 := Next(h, Next(h, s, BeginPut(source, key)), Append(k, |source|));
    Commits(h, s, source, algo, key);
    FiveSteps(h, s, BeginPut(source, key), Append(k, |source|), s2, Seal(k), LockPut(k), Rename(k));
  }

  /** A keyed put of the wrong bytes leaves every file as it was. */
  lemma WrongPutLeaves(h: Hash, s: State, source: Bytes, key: Digest)
    requires Tmp(s.counter) !in s.files && key.bytes != h(key.algo, source)
    ensures var k := |s.ops|;
            var acts := [BeginPut(source, Some(key)), Append(k, |source|), Seal(k)];
            Runs(h, s, acts) && After(h, s, acts).files == s.files
  {
    var k := |s.ops|;
    Written(h, s, source, Some(key));
    var s2 := Next(h, Next(h, s, BeginPut(source, Some(key))), Append(k, |source|));
    assert Next(h, s2, Seal(k)).files == s2.files - {Tmp(s.counter)} == s.files;
    ThreeSteps(h, s, BeginPut(source, Some(key)), Append(k, |source|), Seal(k));
  }

  /** A repair of a corrupt file removes that file and no other; of a healthy or missing one,
      none. Either way it lets go of the lock. */
  lemma RepairRemovesCorrupt(h: Hash, s: State, d: Digest)
    requires forall op | op in s.ops :: !op.Landing? && !op.Verifying? && !op.Condemned?
    ensures var k, corrupt := |s.ops|, Canon(d) in s.files && h(d.algo, s.files[Canon(d)]) != d.bytes;
            var acts := [LockRepair(d), Verify(k)] + if corrupt then [Unlink(k)] else [];
            && Runs(h, s, acts) && After(h, s, acts).ops == s.ops + [Finished]
            && After(h, s, acts).files == if corrupt then s.files - {Canon(d)} else s.files
  {
    var k, corrupt := |s.ops|, Canon(d) in s.files && h(d.algo, s.files[Canon(d)]) != d.bytes;
    var s1 := Next(h, s, LockRepair(d));
    var s2 := Next(h, s1, Verify(k));
    var done := s.ops + [Finished];
    assert !Locked(s);
    if corrupt {
      assert s2.ops[k := Finished] == done;
      ThreeSteps(h, s, LockRepair(d), Verify(k), Unlink(k));
      assert [LockRepair(d), Verify(k)] + [Unlink(k)] == [LockRepair(d), Verify(k), Unlink(k)];
    } else {
      assert s2.ops == done;
      TwoSteps(h, s, LockRepair(d), Verify(k));
      assert [LockRepair(d), Verify(k)] + [] == [LockRepair(d), Verify(k)];
    }
  }

  /** A repair that fails lets go of the lock and leaves every file as it was. */
  lemma FailedRepairLeaves(h: Hash, s: State, d: Digest)
    requires forall op | op in s.ops :: !op.Landing? && !op.Verifying? && !op.Condemned?
    ensures var acts := [LockRepair(d), FailRepair(|s.ops|)];
            Runs(h, s, acts) && After(h, s, acts).files == s.files && After(h, s, acts).ops == s.ops + [Finished]
  {
    assert !Locked(s);
    TwoSteps(h, s, LockRepair(d), FailRepair(|s.ops|));
  }

  /** A file that rots is removed by the next repair. */
  lemma RottedIsRepaired(h: Hash, s: State, d: Digest, bytes: Bytes)
    requires forall op | op in s.ops :: !op.Landing? && !op.Verifying? && !op.Condemned?
    requires Canon(d) in s.files && h(d.algo, bytes) != d.bytes
    ensures var acts := [Rot(Canon(d), bytes)] + ([LockRepair(d), Verify(|s.ops|)] + [Unlink(|s.ops|)]);
            Runs(h, s, acts) && After(h, s, acts).files == s.files - {Canon(d)}
  {
    var s1 := Next(h, s, Rot(Canon(d), bytes));
    RepairRemovesCorrupt(h, s1, d);
    RunCons(h, s, Rot(Canon(d), bytes), [LockRepair(d), Verify(|s.ops|)] + [Unlink(|s.ops|)]);
    assert s1.files - {Canon(d)} == s.files - {Canon(d)};
  }

  /** A put that fails part way leaves every file as it was, or its temporary file behind, and
      then the next opening removes that. */
  lemma FailedPutLeaves(h: Hash, s: State, source: Bytes, key: Option<Digest>, removed: bool)
    requires forall f | f in s.files :: !f.Tmp?
    ensures var k := |s.ops|;
            var acts := [BeginPut(source, key), Append(k, |source|), FailPut(k, removed)];
            && Runs(h, s, acts)
            && After(h, s, acts).files == (if removed then s.files else s.files[Tmp(s.counter) := source])
            && Next(h, After(h, s, acts), Reopen).files == s.files
  {
    var k := |s.ops|;
    Written(h, s, source, key);
    var s2 := Next(h, Next(h, s, BeginPut(source, key)), Append(k, |source|));
    FailedStep(h, s2, k, removed);
    ThreeSteps(h, s, BeginPut(source, key), Append(k, |source|), FailPut(k, removed));
    WithTmp(s.files, s.counter, source);
  }

  lemma FailedStep(h: Hash, s: State, i: nat, removed: bool)
    requires i < |s.ops| && s.ops[i].Writing?
    ensures Enabled(h, s, FailPut(i, removed))
    ensures Next(h, s, FailPut(i, removed)).files == if removed then s.files - {Tmp(s.ops[i].id)} else s.files
  {
  }

  lemma WithTmp(files: Files, id: nat, bytes: Bytes)
    requires forall f | f in files :: !f.Tmp?
    ensures files[Tmp(id) := bytes] - {Tmp(id)} == files
    ensures Discarded(files[Tmp(id) := bytes]) == files && Discarded(files) == files
  {
    assert Tmp(id) !in files;
  }

  lemma {:induction false} AsideStays(h: Hash, s: State, acts: seq<Action>, f: File)
    requires f.Aside? && f in s.files && Runs(h, s, acts) && (forall a | a in acts :: !a.Rot?)
    ensures f in After(h, s, acts).files && After(h, s, acts).files[f] == s.files[f]
    decreases |acts|
  {
    if acts != [] {
      AsideStep(h, s, acts[0], f);
      AsideStays(h, Next(h, s, acts[0]), acts[1..], f);
    }
  }

  lemma AsideStep(h: Hash, s: State, a: Action, f: File)
    requires f.Aside? && f in s.files && Enabled(h, s, a) && !a.Rot?
    ensures f in Next(h, s, a).files && Next(h, s, a).files[f] == s.files[f]
  {
  }

  /** A file moved aside is gone from its canonical path, and what it held is kept under the new
      name through whatever happens next. */
  lemma MovedAsideStays(h: Hash, s: State, d: Digest, slot: nat, acts: seq<Action>)
    requires Canon(d) in s.files && Aside(d, slot) !in s.files
    requires Runs(h, Next(h, s, MoveAside(d, slot)), acts) && (forall a | a in acts :: !a.Rot?)
    ensures Canon(d) !in Next(h, s, MoveAside(d, slot)).files
    ensures var now := After(h, Next(h, s, MoveAside(d, slot)), acts).files;
            Aside(d, slot) in now && now[Aside(d, slot)] == s.files[Canon(d)]
  {
    AsideStays(h, Next(h, s, MoveAside(d, slot)), acts, Aside(d, slot));
  }

  lemma {:induction false} GoneStays(h: Hash, s: State, acts: seq<Action>, d: Digest)
    requires Canon(d) !in s.files && Runs(h, s, acts) && (forall a | a in acts :: !a.Rename?)
    ensures Canon(d) !in After(h, s, acts).files
    decreases |acts|
  {
    if acts != [] {
      GoneStays(h, Next(h, s, acts[0]), acts[1..], d);
    }
  }

  /** A reclaim removes its file and no other, and only a put that lands brings it back. */
  lemma ReclaimedStaysGone(h: Hash, s: State, d: Digest, acts: seq<Action>)
    requires Runs(h, Next(h, s, Reclaim(d)), acts) && (forall a | a in acts :: !a.Rename?)
    ensures Next(h, s, Reclaim(d)).files == s.files - {Canon(d)}
    ensures Canon(d) !in After(h, Next(h, s, Reclaim(d)), acts).files
  {
    GoneStays(h, Next(h, s, Reclaim(d)), acts, d);
  }

  /** Every temporary file is numbered `n` or later. */
  ghost predicate TmpFrom(s: State, n: nat) {
    n <= s.counter && forall f :: f in s.files && f.Tmp? ==> n <= f.id
  }

  lemma {:induction false} TmpStaysFrom(h: Hash, s: State, acts: seq<Action>, n: nat)
    requires Runs(h, s, acts) && TmpFrom(s, n)
    ensures TmpFrom(After(h, s, acts), n)
    decreases |acts|
  {
    if acts != [] {
      TmpStepFrom(h, s, acts[0], n);
      TmpStaysFrom(h, Next(h, s, acts[0]), acts[1..], n);
    }
  }

  lemma TmpStepFrom(h: Hash, s: State, a: Action, n: nat)
    requires Enabled(h, s, a) && TmpFrom(s, n)
    ensures TmpFrom(Next(h, s, a), n)
  {
  }

  /** No uncommitted write survives a reopen: in every later state, each temporary file belongs
      to a put begun since. */
  lemma NoTempSurvives(h: Hash, s: State, before: seq<Action>, since: seq<Action>, id: nat)
    requires Runs(h, s, before) && Runs(h, Next(h, After(h, s, before), Reopen), since)
    requires Tmp(id) in After(h, Next(h, After(h, s, before), Reopen), since).files
    ensures After(h, s, before).counter <= id
  {
    var crashed := After(h, s, before);
    TmpStaysFrom(h, Next(h, crashed, Reopen), since, crashed.counter);
  }
}
