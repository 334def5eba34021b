/** The store object whose fields those books are. Each method is one critical section or
    atomic operation of the source and is tied to its transition; `PutKeyedWriteOnly` is a
    whole write with nothing else running. */
module LedgerStore {
  import opened Core
  import opened Digests
  import opened Ledger

  datatype Blob<K> = Blob(key: K, size: nat)

  datatype QuarantineOutcome = Moved(id: QuarantineId, size: nat) | Absent | Postponed

  datatype PutError =
    | CapacityExceeded(used: nat, incoming: nat, capacity: nat)
    | Mismatch

  function SizeSum<K>(blobs: seq<Blob<K>>): nat {
    if |blobs| == 0 then 0 else SizeSum(blobs[..|blobs| - 1]) + blobs[|blobs| - 1].size
  }

  /** The map left by inserting a listing in order: a later entry replaces an earlier one. */
  function Seeded<K>(blobs: seq<Blob<K>>): map<K, nat> {
    if |blobs| == 0 then map[]
    else Seeded(blobs[..|blobs| - 1])[blobs[|blobs| - 1].key := blobs[|blobs| - 1].size]
  }

  /** No entry with bytes is replaced by a later one with the same key. */
  ghost predicate NoneReplaced<K(!new)>(blobs: seq<Blob<K>>) {
    forall i, j | 0 <= i < j < |blobs| && blobs[i].key == blobs[j].key :: blobs[i].size == 0
  }

  lemma {:induction false} SeededKeys<K(!new)>(blobs: seq<Blob<K>>, k: K)
    ensures k in Seeded(blobs) <==> exists i :: 0 <= i < |blobs| && blobs[i].key == k
    ensures k in Seeded(blobs) ==> exists i :: 0 <= i < |blobs| && blobs[i] == Blob(k, Seeded(blobs)[k])
                                          && forall j :: i < j < |blobs| ==> blobs[j].key != k
  {
    if |blobs| > 0 {
      var n := |blobs| - 1;
      SeededKeys(blobs[..n], k);
      if blobs[n].key == k {
        assert blobs[n] == Blob(k, Seeded(blobs)[k]);
      } else if k in Seeded(blobs[..n]) {
        var i :| 0 <= i < n && blobs[..n][i] == Blob(k, Seeded(blobs[..n])[k])
                 && forall j :: i < j < n ==> blobs[..n][j].key != k;
        assert blobs[i] == Blob(k, Seeded(blobs)[k]);
        assert forall j :: i < j < |blobs| ==> blobs[j].key != k;
      } else {
        assert forall i :: 0 <= i < n ==> blobs[i] == blobs[..n][i];
      }
    }
  }

  /** Appending an entry replaces bytes exactly when its key was charged some. */
  lemma NoneReplacedSnoc<K(!new)>(front: seq<Blob<K>>, last: Blob<K>)
    ensures var m := Seeded(front);
            NoneReplaced(front + [last])
            <==> NoneReplaced(front) && (last.key in m ==> m[last.key] == 0)
  {
    var m, blobs, n := Seeded(front), front + [last], |front|;
    SeededKeys(front, last.key);
    if NoneReplaced(blobs) {
      forall i, j | 0 <= i < j < n && front[i].key == front[j].key ensures front[i].size == 0 {
        assert blobs[i].key == blobs[j].key;
      }
      if last.key in m {
        var i :| 0 <= i < n && front[i] == Blob(last.key, m[last.key]);
        assert blobs[i].key == blobs[n].key;
      }
    }
    if NoneReplaced(front) && (last.key in m ==> m[last.key] == 0) {
      forall i, j | 0 <= i < j < |blobs| && blobs[i].key == blobs[j].key ensures blobs[i].size == 0 {
        assert blobs[i] == front[i];
        if j == n {
          assert last.key in m;
          var k :| 0 <= k < n && front[k] == Blob(last.key, m[last.key])
                   && forall x :: k < x < n ==> front[x].key != last.key;
          assert i <= k;
        }
      }
    }
  }

  /** Opening a store counts every listed byte, but keeps one charge per key: the two agree
      exactly when no listed entry with bytes is replaced by another of the same key. */
  lemma {:induction false} SeedIsExact<K(!new)>(blobs: seq<Blob<K>>)
    ensures SumMap(Seeded(blobs)) <= SizeSum(blobs)
    ensures SumMap(Seeded(blobs)) == SizeSum(blobs) <==> NoneReplaced(blobs)
  {
    if |blobs| > 0 {
      var n := |blobs| - 1;
      var front, last := blobs[..n], blobs[n];
      SeedIsExact(front);
      assert blobs == front + [last];
      NoneReplacedSnoc(front, last);
      var m := Seeded(front);
      SumMapDrop(m, last.key);
      SumMapInsert(m - {last.key}, last.key, last.size);
      assert m[last.key := last.size] == (m - {last.key})[last.key := last.size];
    }
  }

  function Sum(chunks: seq<nat>): nat {
    if |chunks| == 0 then 0 else Sum(chunks[..|chunks| - 1]) + chunks[|chunks| - 1]
  }

  lemma {:induction false} SumPrefix(chunks: seq<nat>, i: nat)
    requires i < |chunks|
    ensures Sum(chunks[..i]) + chunks[i] == Sum(chunks[..i + 1]) <= Sum(chunks)
    decreases |chunks| - i
  {
    assert chunks[..i + 1][..i] == chunks[..i];
    if i + 1 < |chunks| {
      SumPrefix(chunks, i + 1);
    } else {
      assert chunks[..i + 1] == chunks;
    }
  }

  /** The lengths a source hands out: chunks, then the empty read that ends the stream. */
  ghost predicate Stream(chunks: seq<nat>) {
    && |chunks| > 0 && chunks[|chunks| - 1] == 0
    && forall i :: 0 <= i < |chunks| - 1 ==> chunks[i] > 0
  }

  /** The gate let `mine` bytes through, and the next chunk would have passed the capacity. */
  ghost predicate TripsAfter(used: nat, capacity: nat, chunks: seq<nat>, mine: nat) {
    exists i :: 0 <= i < |chunks| && mine == Sum(chunks[..i]) && used + mine + chunks[i] > capacity
                && (i > 0 ==> used + mine <= capacity)
  }

  class CasStore {
    const capacity: nat
    var accounted: map<Digest, nat>
    var quarantined: map<QuarantineId, nat>
    var fastInflight: map<Digest, nat>
    var lockedCommitted: nat
    var committed: nat
    var pending: nat
    var live: map<Digest, nat>

    function View(): Shared
      reads this
    {
      Shared(accounted, quarantined, fastInflight, lockedCommitted, committed, pending, live)
    }

    ghost predicate Valid()
      reads this
    {
      && Balanced(View())
      && forall d :: d in fastInflight ==> fastInflight[d] > 0
    }

    /** Open over a backend that lists `blobs` live and `aside` quarantined. */
    constructor (capacity: nat, blobs: seq<Blob<Digest>>, aside: seq<Blob<QuarantineId>>)
      ensures this.capacity == capacity
      ensures View() == Shared(Seeded(blobs), Seeded(aside), map[], SizeSum(blobs) + SizeSum(aside),
                               SizeSum(blobs) + SizeSum(aside), 0, Seeded(blobs))
      ensures Valid() <==> NoneReplaced(blobs) && NoneReplaced(aside)
    {
      var charges: map<Digest, nat> := map[];
      var copies: map<QuarantineId, nat> := map[];
      var total := 0;
      for i := 0 to |blobs|
        invariant charges == Seeded(blobs[..i]) && total == SizeSum(blobs[..i])
      {
        assert blobs[..i + 1][..i] == blobs[..i];
        charges := charges[blobs[i].key := blobs[i].size];
        total := total + blobs[i].size;
      }
      assert blobs[..|blobs|] == blobs;
      for i := 0 to |aside|
        invariant copies == Seeded(aside[..i]) && total == SizeSum(blobs) + SizeSum(aside[..i])
      {
        assert aside[..i + 1][..i] == aside[..i];
        copies := copies[aside[i].key := aside[i].size];
        total := total + aside[i].size;
      }
      assert aside[..|aside|] == aside;
      SeedIsExact(blobs);
      SeedIsExact(aside);
      this.capacity := capacity;
      accounted, quarantined, fastInflight := charges, copies, map[];
      lockedCommitted, committed, pending := total, total, 0;
      live := charges;
    }

    method Admits(size: nat) returns (yes: bool)
      requires Valid() && capacity <= U64_MAX
      ensures yes <==> capacity == U64_MAX || SumMap(accounted) + SumMap(quarantined) + pending + size <= capacity
    {
      yes := SatAdd(committed + pending, size) <= capacity;
    }

    method Account(d: Digest, size: nat)
      requires Valid()
      modifies this
      ensures Valid() && View() == Charge(old(View()), d, size)
      ensures accounted == if size == 0 || d in old(accounted) then old(accounted) else old(accounted)[d := size]
      ensures committed == old(committed) + if size == 0 || d in old(accounted) then 0 else size
      ensures live == old(live) && quarantined == old(quarantined) && pending == old(pending)
    {
      ChargeKeepsBalance(View(), d, size);
      if size == 0 {
        return;
      }
      if d !in accounted {
        accounted := accounted[d := size];
        lockedCommitted := lockedCommitted + size;
        committed := lockedCommitted;
      }
    }

    /** The decision of a new put, taken under the state lock. `lookup` is what the backend
        answers to `has`, an error reading as no. */
    method BeginPut(d: Digest, lookup: bool) returns (fast: bool)
      requires Valid()
      modifies this`fastInflight
      ensures Valid() && fast == (d in accounted || lookup)
      ensures View() == if fast then RegisterFast(old(View()), d) else old(View())
    {
      fast := d in accounted || lookup;
      if fast {
        fastInflight := fastInflight[d := 1 + if d in fastInflight then fastInflight[d] else 0];
      }
    }

    method EndFast(d: Digest)
      requires Valid()
      modifies this`fastInflight
      ensures Valid() && View() == ReleaseFast(old(View()), d)
    {
      if d in fastInflight {
        if fastInflight[d] <= 1 {
          fastInflight := fastInflight - {d};
        } else {
          fastInflight := fastInflight[d := fastInflight[d] - 1];
        }
      }
    }

    /** The first quarantine slot of `d` not taken. */
    method FreeSlot(d: Digest) returns (n: nat)
      ensures QuarantineId(d, n) !in quarantined
      ensures forall m :: 0 <= m < n ==> QuarantineId(d, m) in quarantined
    {
      n := 0;
      SlotsFit(d, n, quarantined);
      while QuarantineId(d, n) in quarantined
        invariant forall m :: 0 <= m < n ==> QuarantineId(d, m) in quarantined
        invariant n <= |quarantined|
        decreases |quarantined| - n
      {
        n := n + 1;
        SlotsFit(d, n, quarantined);
      }
    }

    method Quarantine(d: Digest) returns (out: QuarantineOutcome)
      requires Valid()
      modifies this
      ensures Valid()
      ensures out.Postponed? <==> d in old(fastInflight)
      ensures out.Absent? <==> d !in old(fastInflight) && d !in old(live)
      ensures out.Moved? ==>
                && out.id.digest == d && out.id !in old(quarantined)
                && (forall m :: 0 <= m < out.id.slot ==> QuarantineId(d, m) in old(quarantined))
                && out.size == old(live)[d]
                && View() == MoveAside(old(View()), d, out.id)
                && quarantined == old(quarantined)[out.id := old(live)[d]]
                && live == old(live) - {d} && accounted == old(accounted) - {d}
                && committed == old(committed) - (if d in old(accounted) then old(accounted)[d] else 0) + old(live)[d]
                && pending == old(pending)
      ensures !out.Moved? ==> View() == old(View())
    {
      if d in fastInflight {
        return Postponed;
      }
      if d !in live {
        return Absent;
      }
      var slot := FreeSlot(d);
      var id := QuarantineId(d, slot);
      MoveAsideKeepsBalance(View(), d, id);
      out := Moved(id, live[d]);
      var credit := if d in accounted then accounted[d] else 0;
      accounted := accounted - {d};
      lockedCommitted := SatSub(lockedCommitted, credit) + live[d];
      quarantined := quarantined[id := live[d]];
      committed := lockedCommitted;
      live := live - {d};
    }

    /** One read through the gate, `n` bytes long. */
    method GateRead(n: nat) returns (ok: bool)
      modifies this`pending
      ensures ok <==> !GateRefuses(capacity, committed, old(pending), n)
      ensures pending == if ok then old(pending) + n else old(pending)
    {
      var before := pending;
      pending := pending + n;
      ok := !(SatAdd(SatAdd(committed, before), n) > capacity);
      if !ok {
        pending := WrapSub(pending, n);
      }
    }

    /** Stream a source through the gate until it ends or is refused. */
    method StreamIn(chunks: seq<nat>) returns (mine: nat, tripped: bool)
      requires capacity <= U64_MAX && Stream(chunks)
      modifies this`pending
      ensures tripped <==> capacity < U64_MAX && committed + old(pending) + Sum(chunks) > capacity
      ensures !tripped ==> mine == Sum(chunks)
      ensures tripped ==> TripsAfter(committed + old(pending), capacity, chunks, mine)
      ensures pending == old(pending) + mine
    {
      var i := 0;
      mine, tripped := 0, false;
      while i < |chunks| && !tripped
        invariant 0 <= i <= |chunks|
        invariant !tripped ==> mine == Sum(chunks[..i])
        invariant pending == old(pending) + mine
        invariant i > 0 && !tripped && capacity < U64_MAX ==> committed + old(pending) + mine <= capacity
        invariant tripped ==> capacity < U64_MAX && committed + old(pending) + Sum(chunks) > capacity
        invariant tripped ==> TripsAfter(committed + old(pending), capacity, chunks, mine)
      {
        SumPrefix(chunks, i);
        GateIsExact(capacity, committed, pending, chunks[i]);
        var ok := GateRead(chunks[i]);
        if ok {
          mine := mine + chunks[i];
        } else {
          tripped := true;
        }
        i := i + 1;
      }
      assert chunks[..|chunks|] == chunks;
    }

    /** The ungated half of a re-put: publish, then deregister. */
    method PutHeld(d: Digest, length: nat, verifies: bool) returns (r: Result<(), PutError>)
      requires Valid() && d in fastInflight
      modifies this
      ensures Valid()
      ensures r == if verifies then Ok(()) else Err(Mismatch)
      ensures View() == ReleaseFast(if verifies then Land(old(View()), d, length, true) else old(View()), d)
      ensures live == if verifies then old(live)[d := length] else old(live)
      ensures accounted == old(accounted) && committed == old(committed) && pending == old(pending)
    {
      if verifies {
        live := live[d := length];
      }
      EndFast(d);
      return if verifies then Ok(()) else Err(Mismatch);
    }

    /** A new digest: stream through the gate, publish, charge, drop the gate. */
    method PutNew(d: Digest, chunks: seq<nat>, verifies: bool) returns (r: Result<(), PutError>)
      requires Valid() && capacity <= U64_MAX && Stream(chunks) && d !in accounted
      modifies this
      ensures Valid()
      ensures r.Ok? <==> verifies && AdmitsBytes(old(View()), capacity, Sum(chunks))
      ensures r == Err(Mismatch) <==> !verifies && AdmitsBytes(old(View()), capacity, Sum(chunks))
      ensures r.Err? && r.error.CapacityExceeded? ==>
                && r.error.used == old(committed) && r.error.capacity == capacity
                && TripsAfter(old(committed) + old(pending), capacity, chunks, r.error.incoming)
      ensures View() == if r.Err? then old(View())
                        else Charge(Land(old(View()), d, Sum(chunks), true), d, Sum(chunks))
      ensures live == if r.Ok? then old(live)[d := Sum(chunks)] else old(live)
      ensures committed == old(committed) + (if r.Ok? then Sum(chunks) else 0) && pending == old(pending)
      ensures r.Ok? && Sum(chunks) > 0 ==> accounted == old(accounted)[d := Sum(chunks)]
    {
      var mine, tripped := StreamIn(chunks);
      if tripped {
        r := Err(CapacityExceeded(committed, mine, capacity));
      } else if !verifies {
        r := Err(Mismatch);
      } else {
        live := live[d := mine];
        Account(d, mine);
        r := Ok(());
      }
      pending := WrapSub(pending, mine);
    }

    /** A whole write with nothing else running. `chunks` are the lengths the source hands
        out, however it cuts the content; `verifies` says whether the content hashes to `d`.
        A digest already held is never refused; a new one is accepted exactly when `Admits`
        would say so of its whole length, and a failed write leaves no trace. */
    method PutKeyedWriteOnly(d: Digest, chunks: seq<nat>, verifies: bool)
      returns (r: Result<(), PutError>)
      requires Valid() && capacity <= U64_MAX && Stream(chunks)
      modifies this
      ensures Valid()
      ensures var sh := old(View());
              var held := d in sh.accounted || d in sh.live;
              && (r.Ok? <==> verifies && (held || AdmitsBytes(sh, capacity, Sum(chunks))))
              && (r == Err(Mismatch) <==> !verifies && (held || AdmitsBytes(sh, capacity, Sum(chunks))))
              && View() == if r.Err? then sh
                           else if held then Land(sh, d, Sum(chunks), true)
                           else Charge(Land(sh, d, Sum(chunks), true), d, Sum(chunks))
      ensures live == if r.Ok? then old(live)[d := Sum(chunks)] else old(live)
      ensures pending == old(pending)
      ensures committed == old(committed)
                + (if r.Ok? && d !in old(accounted) && d !in old(live) then Sum(chunks) else 0)
    {
      var fast := BeginPut(d, d in live);
      if fast {
        r := PutHeld(d, Sum(chunks), verifies);
      } else {
        r := PutNew(d, chunks, verifies);
      }
    }
  }

  /** Distinct slots are distinct keys. */
  lemma {:induction false} SlotsFit(d: Digest, n: nat, q: map<QuarantineId, nat>)
    requires forall m :: 0 <= m < n ==> QuarantineId(d, m) in q
    ensures n <= |q|
  {
    if n > 0 {
      var last := QuarantineId(d, n - 1);
      var rest := q - {last};
      assert rest.Keys == q.Keys - {last};
      SlotsFit(d, n - 1, rest);
    }
  }
}
