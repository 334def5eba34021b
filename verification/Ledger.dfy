/** The write-only books of one store: what is charged, what is reserved, and the
    transitions that change either. Each transition is one critical section or one
    atomic operation of the source. */
module Ledger {
  import opened Core
  import opened Digests

  function SatAdd(a: nat, b: nat): nat {
    if a + b > U64_MAX then U64_MAX else a + b
  }

  function SatSub(a: nat, b: nat): nat {
    if b > a then 0 else a - b
  }

  /** An atomic `fetch_sub`: wraps below zero. */
  function WrapSub(a: nat, b: nat): nat {
    if b <= a then a - b else (a - b) % (U64_MAX + 1)
  }

  /** A quarantine file: the `slot`-th copy of `digest` moved aside. */
  datatype QuarantineId = QuarantineId(digest: Digest, slot: nat)

  /** The shared memory of a store. `committed` lives under the state lock and `mirror`
      is its lock-free copy. `live` is the backend: each held digest and the length of the
      file that holds it, which corruption can change. */
  datatype Shared = Shared(
    accounted: map<Digest, nat>,
    quarantined: map<QuarantineId, nat>,
    fastInflight: map<Digest, nat>,
    committed: nat,
    mirror: nat,
    pending: nat,
    live: map<Digest, nat>)

  /** Does a reservation of `n` bytes, taken when `before` were pending, fail the gate? */
  predicate GateRefuses(capacity: nat, committed: nat, before: nat, n: nat) {
    SatAdd(SatAdd(committed, before), n) > capacity
  }

  /** Saturation never changes the gate's verdict, save at a capacity of `u64::MAX`, where
      the gate refuses nothing at all. */
  lemma GateIsExact(capacity: nat, committed: nat, before: nat, n: nat)
    requires capacity <= U64_MAX
    ensures GateRefuses(capacity, committed, before, n)
            <==> capacity < U64_MAX && committed + before + n > capacity
  {
  }

  predicate AdmitsBytes(sh: Shared, capacity: nat, size: nat) {
    SatAdd(sh.mirror + sh.pending, size) <= capacity
  }

  /** Charge `size` bytes to `d`, once; nothing read means nothing to charge. */
  function Charge(sh: Shared, d: Digest, size: nat): Shared {
    if size == 0 || d in sh.accounted then sh
    else
      var total := sh.committed + size;
      sh.(accounted := sh.accounted[d := size], committed := total, mirror := total)
  }

  function RegisterFast(sh: Shared, d: Digest): Shared {
    sh.(fastInflight := sh.fastInflight[d := 1 + if d in sh.fastInflight then sh.fastInflight[d] else 0])
  }

  function ReleaseFast(sh: Shared, d: Digest): Shared {
    if d !in sh.fastInflight then sh
    else if sh.fastInflight[d] <= 1 then sh.(fastInflight := sh.fastInflight - {d})
    else sh.(fastInflight := sh.fastInflight[d := sh.fastInflight[d] - 1])
  }

  /** The backend publishes a verified copy of `d`: a rename over the old file, or nothing
      when the backend keeps an existing entry. */
  function Land(sh: Shared, d: Digest, length: nat, over: bool): Shared {
    if d in sh.live && !over then sh else sh.(live := sh.live[d := length])
  }

  predicate Deferred(sh: Shared, d: Digest) {
    d in sh.fastInflight
  }

  function Credit(sh: Shared, d: Digest): nat {
    if d in sh.accounted then sh.accounted[d] else 0
  }

  /** What moving `d` aside adds to the bytes retained beyond what it was charged. */
  function QuarantineGrowth(sh: Shared, d: Digest): nat {
    if Deferred(sh, d) || d !in sh.live then 0 else SatSub(sh.live[d], Credit(sh, d))
  }

  /** Move `d` aside under `id`: credit what was charged, debit what the file holds. */
  function MoveAside(sh: Shared, d: Digest, id: QuarantineId): Shared {
    if Deferred(sh, d) || d !in sh.live then sh
    else
      var total := SatSub(sh.committed, Credit(sh, d)) + sh.live[d];
      sh.(accounted := sh.accounted - {d},
          quarantined := sh.quarantined[id := sh.live[d]],
          committed := total, mirror := total,
          live := sh.live - {d})
  }

  /** The books: every charge is in `committed`, and the lock-free copy agrees. */
  ghost predicate Balanced(sh: Shared) {
    && sh.committed == SumMap(sh.accounted) + SumMap(sh.quarantined)
    && sh.mirror == sh.committed
  }

  lemma ChargeKeepsBalance(sh: Shared, d: Digest, size: nat)
    requires Balanced(sh)
    ensures Balanced(Charge(sh, d, size))
  {
    if size != 0 && d !in sh.accounted {
      SumMapInsert(sh.accounted, d, size);
    }
  }

  /** Quarantine moves a charge without losing a byte, and its subtraction never saturates. */
  lemma MoveAsideKeepsBalance(sh: Shared, d: Digest, id: QuarantineId)
    requires Balanced(sh) && id !in sh.quarantined
    ensures Balanced(MoveAside(sh, d, id))
    ensures Credit(sh, d) <= sh.committed
    ensures QuarantineGrowth(sh, d) ==
              if MoveAside(sh, d, id).committed > sh.committed then MoveAside(sh, d, id).committed - sh.committed else 0
  {
    SumMapDrop(sh.accounted, d);
    if !Deferred(sh, d) && d in sh.live {
      SumMapInsert(sh.quarantined, id, sh.live[d]);
    }
  }

  /** Quarantine keeps every byte it finds: what leaves the live files joins the quarantined
      ones, at its own length. */
  lemma MoveAsideConserves(sh: Shared, d: Digest, id: QuarantineId)
    requires id !in sh.quarantined
    ensures SumMap(MoveAside(sh, d, id).live) + SumMap(MoveAside(sh, d, id).quarantined)
            == SumMap(sh.live) + SumMap(sh.quarantined)
  {
    if !Deferred(sh, d) && d in sh.live {
      SumMapRemove(sh.live, d);
      SumMapInsert(sh.quarantined, id, sh.live[d]);
    }
  }
}
