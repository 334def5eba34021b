/** One eviction pass of a bounded cache, and the access log that orders it. */
module Evict {
  import opened Core
  import opened Digests
  import opened Sorting

  datatype Blob = Blob(digest: Digest, size: nat)

  /** The snapshots a pass works from. */
  datatype Snapshot = Snapshot(
    pinned: set<Digest>,
    inFlight: set<Digest>,
    written: map<Digest, nat>,
    now: nat,
    grace: nat,
    touched: map<Digest, nat>,
    replicated: set<Digest>)

  function Tick(s: Snapshot, d: Digest): nat {
    if d in s.touched then s.touched[d] else 0
  }

  /** Written long enough ago; an unknown write time counts as long ago. */
  predicate PastGrace(s: Snapshot, d: Digest) {
    d in s.written ==> (if s.written[d] > s.now then 0 else s.now - s.written[d]) >= s.grace
  }

  predicate Candidate(s: Snapshot, d: Digest) {
    d !in s.pinned && d !in s.inFlight && PastGrace(s, d)
  }

  // ---- The order candidates are taken in ----

  predicate Colder(s: Snapshot, a: Blob, b: Blob) {
    Tick(s, a.digest) <= Tick(s, b.digest)
  }

  function ByTick(s: Snapshot): (Blob, Blob) -> bool {
    (a: Blob, b: Blob) => Colder(s, a, b)
  }

  function Candidates(s: Snapshot, local: seq<Blob>): seq<Blob> {
    Filter((b: Blob) => Candidate(s, b.digest), local)
  }

  /** Blobs another node also holds, coldest first; then sole copies, coldest first. */
  function Order(s: Snapshot, local: seq<Blob>): seq<Blob> {
    var cold := Sort(ByTick(s), Candidates(s, local));
    Filter(IsReplicated(s), cold) + Filter(IsSole(s), cold)
  }

  /** `a` is taken before `b`. */
  predicate Before(s: Snapshot, a: Blob, b: Blob) {
    if (a.digest in s.replicated) == (b.digest in s.replicated)
    then Tick(s, a.digest) <= Tick(s, b.digest)
    else a.digest in s.replicated
  }

  function IsReplicated(s: Snapshot): Blob -> bool {
    (b: Blob) => b.digest in s.replicated
  }

  function IsSole(s: Snapshot): Blob -> bool {
    (b: Blob) => b.digest !in s.replicated
  }

  /** The pass takes every candidate once. */
  lemma OrderComplete(s: Snapshot, local: seq<Blob>)
    ensures multiset(Order(s, local)) == multiset(Candidates(s, local))
  {
    var cold := Sort(ByTick(s), Candidates(s, local));
    SortSorts(ByTick(s), Candidates(s, local));
    FilterSplits(IsReplicated(s), IsSole(s), cold);
  }

  lemma TwoClasses(s: Snapshot, first: seq<Blob>, second: seq<Blob>, i: nat, j: nat)
    requires Sorted(ByTick(s), first) && Sorted(ByTick(s), second) && i < j < |first + second|
    requires forall b | b in first :: b.digest in s.replicated
    requires forall b | b in second :: b.digest !in s.replicated
    ensures Before(s, (first + second)[i], (first + second)[j])
  {
    if j < |first| {
      SortedAt(ByTick(s), first, i, j);
    } else if i >= |first| {
      SortedAt(ByTick(s), second, i - |first|, j - |first|);
    }
  }

  /** Blobs with another holder first, then by last access, where none counts as the first. */
  lemma OrderSorted(s: Snapshot, local: seq<Blob>, i: nat, j: nat)
    requires i < j < |Order(s, local)|
    ensures var a, b := Order(s, local)[i].digest, Order(s, local)[j].digest;
            && (b in s.replicated ==> a in s.replicated)
            && ((a in s.replicated <==> b in s.replicated) ==>
                  (if a in s.touched then s.touched[a] else 0) <= (if b in s.touched then s.touched[b] else 0))
  {
    var cold := Sort(ByTick(s), Candidates(s, local));
    SortSorts(ByTick(s), Candidates(s, local));
    FilterMembers(IsReplicated(s), cold);
    FilterMembers(IsSole(s), cold);
    FilterSorted(ByTick(s), IsReplicated(s), cold);
    FilterSorted(ByTick(s), IsSole(s), cold);
    TwoClasses(s, Filter(IsReplicated(s), cold), Filter(IsSole(s), cold), i, j);
  }

  /** A pass tries exactly the listed blobs that are not pinned, not in flight and, when their
      write time is known, were written at least the grace period ago. */
  lemma OrderSpares(s: Snapshot, local: seq<Blob>, b: Blob)
    ensures b in Order(s, local) <==>
              && b in local && b.digest !in s.pinned && b.digest !in s.inFlight
              && (b.digest in s.written ==> s.grace == 0 || s.written[b.digest] + s.grace <= s.now)
  {
    OrderComplete(s, local);
    FilterMembers((b: Blob) => Candidate(s, b.digest), local);
    assert b in Order(s, local) <==> b in multiset(Order(s, local));
    assert b in Candidates(s, local) <==> b in multiset(Candidates(s, local));
  }

  /** Pinned, in flight, or written less than the grace period ago. */
  predicate Protected(s: Snapshot, d: Digest) {
    d in s.pinned || d in s.inFlight || (d in s.written && s.grace > 0 && s.written[d] + s.grace > s.now)
  }

  lemma OrderHasNoProtected(s: Snapshot, local: seq<Blob>, b: Blob)
    requires b in Order(s, local)
    ensures !Protected(s, b.digest)
  {
    OrderSpares(s, local, b);
  }

  // ---- Sizes ----

  function Size(bs: seq<Blob>): nat {
    if |bs| == 0 then 0 else bs[0].size + Size(bs[1..])
  }

  lemma {:induction false} SizeAppend(a: seq<Blob>, b: seq<Blob>)
    ensures Size(a + b) == Size(a) + Size(b)
  {
    if |a| == 0 {
      assert a + b == b;
    } else {
      SizeAppend(a[1..], b);
      assert (a + b)[1..] == a[1..] + b;
    }
  }

  lemma {:induction false} InsertSize(s: Snapshot, b: Blob, bs: seq<Blob>)
    ensures Size(Insert(ByTick(s), b, bs)) == b.size + Size(bs)
  {
    if |bs| == 0 || Colder(s, b, bs[0]) {
      assert ([b] + bs)[1..] == bs;
    } else {
      InsertSize(s, b, bs[1..]);
      var rest := Insert(ByTick(s), b, bs[1..]);
      assert ([bs[0]] + rest)[1..] == rest;
    }
  }

  lemma {:induction false} SortSize(s: Snapshot, bs: seq<Blob>)
    ensures Size(Sort(ByTick(s), bs)) == Size(bs)
  {
    if |bs| > 0 {
      SortSize(s, bs[1..]);
      InsertSize(s, bs[0], Sort(ByTick(s), bs[1..]));
    }
  }

  lemma {:induction false} FilterSize(p: Blob -> bool, q: Blob -> bool, bs: seq<Blob>)
    requires forall b :: !(p(b) && q(b))
    ensures Size(Filter(p, bs)) + Size(Filter(q, bs)) <= Size(bs)
  {
    if |bs| > 0 {
      FilterSize(p, q, bs[1..]);
      SizeAppend(if p(bs[0]) then [bs[0]] else [], Filter(p, bs[1..]));
      SizeAppend(if q(bs[0]) then [bs[0]] else [], Filter(q, bs[1..]));
    }
  }

  /** No more bytes can be evicted than are held. */
  lemma OrderSize(s: Snapshot, local: seq<Blob>)
    ensures Size(Order(s, local)) <= Size(local)
  {
    var cold := Sort(ByTick(s), Candidates(s, local));
    SortSize(s, Candidates(s, local));
    FilterSize(IsReplicated(s), IsSole(s), cold);
    SizeAppend(Filter(IsReplicated(s), cold), Filter(IsSole(s), cold));
    FilterSize((b: Blob) => Candidate(s, b.digest), (b: Blob) => false, local);
  }

  // ---- The pass ----

  datatype Report = Report(scanned: nat, evicted: nat, evictedSole: nat, bytesEvicted: nat, stillOver: bool)

  datatype EvictError = WriteOnlyStore | ReclaimFailed(digest: Digest)

  /** What the cache holds, and the access records it keeps. */
  datatype Books = Books(held: map<Digest, nat>, touched: map<Digest, nat>, written: map<Digest, nat>)

  /** The books after trying some blobs, and those really removed, in order. */
  datatype Swept = Swept(books: Books, took: seq<Blob>)

  /** Reclaim one blob and forget its records. */
  function Drop(k: Books, d: Digest): Books {
    if d in k.held then Books(k.held - {d}, k.touched - {d}, k.written - {d}) else k
  }

  /** The file and the records of `d` are as they were. */
  predicate Untouched(was: Books, now: Books, d: Digest) {
    && (if d in was.held then d in now.held && now.held[d] == was.held[d] else d !in now.held)
    && (if d in was.touched then d in now.touched && now.touched[d] == was.touched[d] else d !in now.touched)
    && (if d in was.written then d in now.written && now.written[d] == was.written[d] else d !in now.written)
  }

  function TryOne(w: Swept, b: Blob): Swept {
    if b.digest in w.books.held then Swept(Drop(w.books, b.digest), w.took + [b]) else w
  }

  function TryAll(k: Books, bs: seq<Blob>): Swept {
    if |bs| == 0 then Swept(k, []) else TryOne(TryAll(k, bs[..|bs| - 1]), bs[|bs| - 1])
  }

  function TryFirst(k: Books, bs: seq<Blob>, n: nat): Swept
    requires n <= |bs|
  {
    TryAll(k, bs[..n])
  }

  lemma TryNext(k: Books, bs: seq<Blob>, n: nat)
    requires n < |bs|
    ensures TryFirst(k, bs, n + 1) == TryOne(TryFirst(k, bs, n), bs[n])
  {
    assert bs[..n + 1][..n] == bs[..n];
  }

  lemma {:induction false} TookSize(k: Books, bs: seq<Blob>, n: nat)
    requires n <= |bs|
    ensures Size(TryFirst(k, bs, n).took) <= Size(bs[..n]) <= Size(bs)
  {
    SizeAppend(bs[..n], bs[n..]);
    assert bs[..n] + bs[n..] == bs;
    if n > 0 {
      TookSize(k, bs, n - 1);
      TryNext(k, bs, n - 1);
      SizeAppend(TryFirst(k, bs, n - 1).took, [bs[n - 1]]);
      SizeAppend(bs[..n - 1], [bs[n - 1]]);
      assert bs[..n - 1] + [bs[n - 1]] == bs[..n];
      assert Size([bs[n - 1]]) == bs[n - 1].size;
    }
  }

  function SoleCount(s: Snapshot, bs: seq<Blob>): nat {
    |Filter(IsSole(s), bs)|
  }

  /** Before each of the first `n` tries the cache was over budget, and none of them failed. */
  ghost predicate OverUntil(k: Books, fails: set<Digest>, bs: seq<Blob>, used: nat, budget: nat, n: nat)
    requires n <= |bs|
  {
    n > 0 ==>
      && OverUntil(k, fails, bs, used, budget, n - 1)
      && used > budget + Size(TryFirst(k, bs, n - 1).took) && bs[n - 1].digest !in fails
  }

  lemma {:induction false} OverBefore(k: Books, fails: set<Digest>, bs: seq<Blob>, used: nat, budget: nat, n: nat, m: nat)
    requires m < n <= |bs| && OverUntil(k, fails, bs, used, budget, n)
    ensures used > budget + Size(TryFirst(k, bs, m).took) && bs[m].digest !in fails
  {
    if m < n - 1 {
      OverBefore(k, fails, bs, used, budget, n - 1, m);
    }
  }

  /** Trying the first `n` blobs is where a pass over `bs` stops: over budget until then, and
      then within it or out of blobs, with no failing reclaim on the way. */
  ghost predicate StopsAt(k: Books, fails: set<Digest>, bs: seq<Blob>, used: nat, budget: nat, n: nat) {
    && n <= |bs| && OverUntil(k, fails, bs, used, budget, n)
    && (n == |bs| || used <= budget + Size(TryFirst(k, bs, n).took))
  }

  /** Reclaiming the blob at `n` is what fails. */
  ghost predicate FailsAt(k: Books, fails: set<Digest>, bs: seq<Blob>, used: nat, budget: nat, n: nat) {
    && n < |bs| && OverUntil(k, fails, bs, used, budget, n)
    && bs[n].digest in fails && used > budget + Size(TryFirst(k, bs, n).took)
  }

  /** What trying one more blob adds. */
  lemma SweepNext(s: Snapshot, k: Books, bs: seq<Blob>, n: nat)
    requires n < |bs|
    ensures var w, w' := TryFirst(k, bs, n), TryFirst(k, bs, n + 1);
            var removed := bs[n].digest in w.books.held;
            && w'.books == Drop(w.books, bs[n].digest)
            && |w'.took| == |w.took| + (if removed then 1 else 0)
            && Size(w'.took) == Size(w.took) + (if removed then bs[n].size else 0)
            && Size(w'.took) <= Size(bs)
            && SoleCount(s, w'.took) == SoleCount(s, w.took) + (if removed && bs[n].digest !in s.replicated then 1 else 0)
  {
    var w := TryFirst(k, bs, n);
    TryNext(k, bs, n);
    TookSize(k, bs, n + 1);
    SizeAppend(w.took, [bs[n]]);
    SoleSnoc(s, w.took, bs[n]);
  }

  lemma ProtectedStays(k: Books, s: Snapshot, local: seq<Blob>, n: nat, d: Digest)
    requires n <= |Order(s, local)| && Protected(s, d)
    ensures Untouched(k, TryFirst(k, Order(s, local), n).books, d)
  {
    forall b | b in Order(s, local) ensures b.digest != d {
      OrderHasNoProtected(s, local, b);
    }
    UntriedStays(k, Order(s, local), n, d);
  }

  lemma PassSpares(k: Books, s: Snapshot, local: seq<Blob>, n: nat)
    requires n <= |Order(s, local)|
    ensures var now := TryFirst(k, Order(s, local), n).books;
            && (forall d :: d in k.held && (d in s.pinned || d in s.inFlight) ==> d in now.held && now.held[d] == k.held[d])
            && (forall d :: d in k.held && d in s.written && s.grace > 0 && s.written[d] + s.grace > s.now ==>
                  d in now.held && now.held[d] == k.held[d])
  {
    var now := TryFirst(k, Order(s, local), n).books;
    forall d | d in k.held && Protected(s, d) ensures d in now.held && now.held[d] == k.held[d] {
      ProtectedStays(k, s, local, n, d);
    }
    assert forall d :: d in s.pinned || d in s.inFlight ==> Protected(s, d);
    assert forall d :: d in s.written && s.grace > 0 && s.written[d] + s.grace > s.now ==> Protected(s, d);
  }

  class Cache {
    var held: map<Digest, nat>
    var touched: map<Digest, nat>
    var written: map<Digest, nat>

    constructor (k: Books)
      ensures View() == k
    {
      held, touched, written := k.held, k.touched, k.written;
    }

    function View(): Books
      reads this
    {
      Books(held, touched, written)
    }

    method Reclaim(d: Digest) returns (removed: bool)
      modifies this
      ensures removed <==> d in old(held)
      ensures View() == Drop(old(View()), d)
    {
      removed := d in held;
      if removed {
        held := held - {d};
        touched := touched - {d};
        written := written - {d};
      }
    }

    /** Try blobs in turn until the budget is met. `fails` are those whose reclaim errors. */
    method Sweep(s: Snapshot, bs: seq<Blob>, start: nat, budget: nat, fails: set<Digest>)
      returns (n: nat, failed: bool, report: Report)
      requires Size(bs) <= start
      modifies this
      ensures n <= |bs| && View() == TryFirst(old(View()), bs, n).books
      ensures if failed then FailsAt(old(View()), fails, bs, start, budget, n)
              else StopsAt(old(View()), fails, bs, start, budget, n)
      ensures var took := TryFirst(old(View()), bs, n).took;
              report == Report(|bs|, |took|, SoleCount(s, took), Size(took), start > budget + Size(took))
    {
      var used, evicted, sole, bytes := start, 0, 0, 0;
      n, failed := 0, false;
      while n < |bs| && used > budget && !failed
        invariant n <= |bs| && View() == TryFirst(old(View()), bs, n).books
        invariant var took := TryFirst(old(View()), bs, n).took;
                  && evicted == |took| && sole == SoleCount(s, took) && bytes == Size(took)
                  && used == start - Size(took)
        invariant OverUntil(old(View()), fails, bs, start, budget, n)
        invariant failed ==> n < |bs| && bs[n].digest in fails && used > budget
        decreases |bs| - n, !failed
      {
        var b := bs[n];
        if b.digest in fails {
          failed := true;
        } else {
          SweepNext(s, old(View()), bs, n);
          var removed := Reclaim(b.digest);
          if removed {
            used := used - b.size;
            evicted := evicted + 1;
            sole := sole + if b.digest in s.replicated then 0 else 1;
            bytes := bytes + b.size;
          }
          n := n + 1;
        }
      }
      report := Report(|bs|, evicted, sole, bytes, used > budget);
    }

    /** One pass over an already enumerated store. A write-only store has no budget, and
        evicts nothing. */
    method EvictToBudget(s: Snapshot, local: seq<Blob>, limit: Option<nat>, fails: set<Digest>)
      returns (r: Result<Report, EvictError>, ghost n: nat)
      modifies this
      ensures n <= |Order(s, local)| && View() == TryFirst(old(View()), Order(s, local), n).books
      ensures forall d :: d in old(held) && (d in s.pinned || d in s.inFlight) ==> d in held && held[d] == old(held)[d]
      ensures forall d :: d in old(held) && d in s.written && s.grace > 0 && s.written[d] + s.grace > s.now ==>
                d in held && held[d] == old(held)[d]
      ensures limit.None? <==> r == Err(WriteOnlyStore)
      ensures limit.None? ==> n == 0
      ensures limit.Some? && Size(local) <= limit.value ==> n == 0 && r == Ok(Report(0, 0, 0, 0, false))
      ensures limit.Some? && Size(local) > limit.value && r.Ok? ==>
                var bs, budget := Order(s, local), limit.value;
                var took := TryFirst(old(View()), bs, n).took;
                && StopsAt(old(View()), fails, bs, Size(local), budget, n)
                && r.value == Report(|bs|, |took|, SoleCount(s, took), Size(took), Size(local) > budget + Size(took))
      ensures limit.Some? && r.Err? ==> FailsAt(old(View()), fails, Order(s, local), Size(local), limit.value, n)
                                        && r.error == ReclaimFailed(Order(s, local)[n].digest)
    {
      n := 0;
      ghost var k := View();
      PassSpares(k, s, local, 0);
      if limit.None? {
        return Err(WriteOnlyStore), n;
      }
      var budget := limit.value;
      if Size(local) <= budget {
        return Ok(Report(0, 0, 0, 0, false)), n;
      }
      OrderSize(s, local);
      var bs := Order(s, local);
      var tried, failed, report := Sweep(s, bs, Size(local), budget, fails);
      n := tried;
      PassSpares(k, s, local, n);
      r := if failed then Err(ReclaimFailed(bs[tried].digest)) else Ok(report);
    }
  }

  /** A pass stops at the first point within budget: before every blob it tried the cache was
      over, and it leaves blobs untried only once it is within. */
  lemma StopsAtFirst(k: Books, fails: set<Digest>, bs: seq<Blob>, used: nat, budget: nat, n: nat)
    requires StopsAt(k, fails, bs, used, budget, n)
    ensures forall m :: 0 <= m < n ==> used > budget + Size(TryFirst(k, bs, m).took)
    ensures n < |bs| ==> used <= budget + Size(TryFirst(k, bs, n).took)
  {
    forall m | 0 <= m < n ensures used > budget + Size(TryFirst(k, bs, m).took) {
      OverBefore(k, fails, bs, used, budget, n, m);
    }
  }

  /** A pass that ends over budget has tried every candidate. */
  lemma StillOverOnlyWhenSpent(k: Books, fails: set<Digest>, s: Snapshot, local: seq<Blob>, budget: nat, n: nat, b: Blob)
    requires StopsAt(k, fails, Order(s, local), Size(local), budget, n)
    requires Size(local) > budget + Size(TryFirst(k, Order(s, local), n).took)
    requires b in local && !Protected(s, b.digest)
    ensures b in Order(s, local)[..n]
  {
    OrderSpares(s, local, b);
    assert Order(s, local)[..n] == Order(s, local);
  }

  /** What a pass removes: nothing protected, and nothing while something colder in its
      class, or any blob with another holder, was spared. */
  lemma {:induction false} TookFrom(k: Books, bs: seq<Blob>, n: nat, b: Blob)
    requires n <= |bs| && b in TryFirst(k, bs, n).took
    ensures exists i :: 0 <= i < n && bs[i] == b
    ensures var now := TryFirst(k, bs, n).books;
            b.digest in k.held && b.digest !in now.held && b.digest !in now.touched && b.digest !in now.written
  {
    if n > 0 {
      TryNext(k, bs, n - 1);
      if b in TryFirst(k, bs, n - 1).took {
        TookFrom(k, bs, n - 1, b);
      } else {
        assert bs[n - 1] == b;
        BooksShrink(k, bs, n - 1);
      }
    }
  }

  lemma {:induction false} BooksShrink(k: Books, bs: seq<Blob>, n: nat)
    requires n <= |bs|
    ensures TryFirst(k, bs, n).books.held.Keys <= k.held.Keys
    ensures forall d :: d in k.held && d !in TryFirst(k, bs, n).books.held ==>
              d !in TryFirst(k, bs, n).books.touched && d !in TryFirst(k, bs, n).books.written
  {
    if n > 0 {
      TryNext(k, bs, n - 1);
      BooksShrink(k, bs, n - 1);
    }
  }

  /** A digest that is not among the blobs tried keeps its file and its records. */
  lemma {:induction false} UntriedStays(k: Books, bs: seq<Blob>, n: nat, d: Digest)
    requires n <= |bs| && forall b | b in bs :: b.digest != d
    ensures Untouched(k, TryFirst(k, bs, n).books, d)
  {
    if n > 0 {
      TryNext(k, bs, n - 1);
      UntriedStays(k, bs, n - 1, d);
      assert bs[n - 1] in bs;
    }
  }

  /** Nothing pinned, in flight or in grace is removed, and of a blob removed and one spared the
      first has another holder and the second not, or both or neither do and the first was
      accessed no later. */
  lemma EvictsInOrder(k: Books, s: Snapshot, local: seq<Blob>, n: nat, gone: Blob, spared: Blob)
    requires n <= |Order(s, local)| && gone in TryFirst(k, Order(s, local), n).took
    requires spared in Order(s, local)[n..]
    ensures gone in local && gone.digest !in s.pinned && gone.digest !in s.inFlight
    ensures gone.digest in s.written ==> s.grace == 0 || s.written[gone.digest] + s.grace <= s.now
    ensures spared.digest in s.replicated ==> gone.digest in s.replicated
    ensures (gone.digest in s.replicated <==> spared.digest in s.replicated) ==>
              Tick(s, gone.digest) <= Tick(s, spared.digest)
  {
    var bs := Order(s, local);
    TookFrom(k, bs, n, gone);
    var i :| 0 <= i < n && bs[i] == gone;
    OrderSpares(s, local, gone);
    var j :| 0 <= j < |bs[n..]| && bs[n..][j] == spared;
    OrderSorted(s, local, i, n + j);
  }

  lemma {:induction false} SoleSnoc(s: Snapshot, bs: seq<Blob>, b: Blob)
    ensures SoleCount(s, bs + [b]) == SoleCount(s, bs) + if b.digest in s.replicated then 0 else 1
  {
    if |bs| > 0 {
      SoleSnoc(s, bs[1..], b);
      assert (bs + [b])[1..] == bs[1..] + [b];
    } else {
      assert ([] + [b])[1..] == [];
    }
  }

  // ---- The access log ----

  /** Ticks are handed out in order; `touches` is every access ever made. */
  class AccessLog {
    var written: map<Digest, nat>
    var lastTouch: map<Digest, nat>
    var nextTick: nat
    ghost var touches: seq<Digest>

    /** A recorded tick is the position of the digest's latest access. */
    ghost predicate Valid()
      reads this
    {
      && nextTick == |touches|
      && forall d :: d in lastTouch ==>
           && lastTouch[d] < |touches| && touches[lastTouch[d]] == d
           && forall j :: lastTouch[d] < j < |touches| ==> touches[j] != d
    }

    constructor ()
      ensures Valid() && lastTouch == map[] && written == map[] && touches == []
    {
      written, lastTouch, nextTick, touches := map[], map[], 0, [];
    }

    method Touch(d: Digest)
      requires Valid()
      modifies this
      ensures Valid() && touches == old(touches) + [d]
      ensures lastTouch == old(lastTouch)[d := old(nextTick)] && written == old(written)
    {
      var tick := nextTick;
      nextTick := nextTick + 1;
      lastTouch := lastTouch[d := tick];
      touches := touches + [d];
    }

    method RecordWrite(d: Digest, now: nat)
      requires Valid()
      modifies this
      ensures Valid() && touches == old(touches) + [d]
      ensures written == old(written)[d := now] && lastTouch == old(lastTouch)[d := old(nextTick)]
    {
      written := written[d := now];
      Touch(d);
    }

    method Forget(d: Digest)
      requires Valid()
      modifies this
      ensures Valid() && touches == old(touches)
      ensures written == old(written) - {d} && lastTouch == old(lastTouch) - {d}
    {
      written := written - {d};
      lastTouch := lastTouch - {d};
    }

    function TickOf(d: Digest): nat
      reads this
    {
      if d in lastTouch then lastTouch[d] else 0
    }

    /** Tick order is access order: the colder of two known blobs is the one whose latest
        access came first. A blob never touched is coldest, except that it ties with one
        whose latest access was the very first ever made. */
    lemma TickOrder(d: Digest, e: Digest)
      requires Valid() && e in lastTouch && d != e
      ensures d in lastTouch ==>
                (TickOf(d) < TickOf(e) <==>
                 exists i, j :: 0 <= i < j < |touches| && touches[i] == d && touches[j] == e
                                && forall k :: i < k < |touches| ==> touches[k] != d)
      ensures d !in lastTouch ==> TickOf(d) <= TickOf(e) && (TickOf(d) == TickOf(e) <==> LastOf(e) == 0)
    {
      if d in lastTouch && TickOf(d) < TickOf(e) {
        assert touches[TickOf(d)] == d && touches[TickOf(e)] == e;
      }
      if d in lastTouch && exists i, j :: 0 <= i < j < |touches| && touches[i] == d && touches[j] == e
                                && forall k :: i < k < |touches| ==> touches[k] != d {
        var i, j :| 0 <= i < j < |touches| && touches[i] == d && touches[j] == e
                    && forall k :: i < k < |touches| ==> touches[k] != d;
        assert i == TickOf(d);
        assert j <= TickOf(e);
      }
    }

    /** The latest access of `d` is the one at position `i`. */
    ghost predicate LatestAt(d: Digest, i: nat)
      reads this
    {
      i < |touches| && touches[i] == d && forall j :: i < j < |touches| ==> touches[j] != d
    }

    /** Eviction follows the access history: of two blobs of one class, with ticks taken from
        this log, the one evicted was last accessed before the one spared. When only the one
        evicted is known to the log, it was last accessed at the very first access of all. */
    lemma EvictsByAccess(k: Books, s: Snapshot, local: seq<Blob>, n: nat, gone: Blob, spared: Blob)
      requires Valid() && s.touched == lastTouch
      requires n <= |Order(s, local)| && gone in TryFirst(k, Order(s, local), n).took
      requires spared in Order(s, local)[n..] && spared.digest != gone.digest
      requires gone.digest in s.replicated <==> spared.digest in s.replicated
      ensures gone.digest in lastTouch && spared.digest in lastTouch ==>
                forall i, j :: LatestAt(gone.digest, i) && LatestAt(spared.digest, j) ==> i < j
      ensures gone.digest in lastTouch && spared.digest !in lastTouch ==> LatestAt(gone.digest, 0)
    {
      EvictsInOrder(k, s, local, n, gone, spared);
      assert Tick(s, gone.digest) <= Tick(s, spared.digest);
      if gone.digest in lastTouch {
        assert LatestAt(gone.digest, lastTouch[gone.digest]);
      }
      if spared.digest in lastTouch {
        assert LatestAt(spared.digest, lastTouch[spared.digest]);
      }
    }

    ghost function LastOf(e: Digest): nat
      requires Valid() && e in lastTouch
      reads this
    {
      var j :| 0 <= j < |touches| && touches[j] == e && forall k :: j < k < |touches| ==> touches[k] != e;
      j
    }
  }

  /** One blob accessed once, at the very first tick, and listed before one never accessed. */
  function OneAccess(e: Digest): Snapshot {
    Snapshot({}, {}, map[], 0, 0, map[e := 0], {})
  }

  lemma TieKeepsListing(d: Digest, e: Digest)
    requires d != e
    ensures Order(OneAccess(e), [Blob(e, 1), Blob(d, 1)]) == [Blob(e, 1), Blob(d, 1)]
  {
    var s, x, y := OneAccess(e), Blob(e, 1), Blob(d, 1);
    FilterAll((b: Blob) => Candidate(s, b.digest), [x, y]);
    assert [x, y][1..] == [y] && [y][1..] == [];
    assert Colder(s, x, y);
    assert Sort(ByTick(s), [y]) == [y] + [] == [y];
    assert Insert(ByTick(s), x, [y]) == [x] + [y] == [x, y];
    FilterNone(IsReplicated(s), [x, y]);
    FilterAll(IsSole(s), [x, y]);
  }

  lemma SizeOfTwo(x: Blob, y: Blob)
    ensures Size([x, y]) == x.size + y.size
  {
    assert [x, y][1..] == [y] && [y][1..] == [];
    assert Size([y]) == y.size + Size([]);
  }

  lemma TwoOfOne(k: Books, bs: seq<Blob>, n: nat)
    requires |bs| == 2 && bs[0].size == 1 && bs[1].size == 1 && bs[0].digest != bs[1].digest
    requires bs[0].digest in k.held && StopsAt(k, {}, bs, 2, 1, n)
    ensures n == 1 && TryFirst(k, bs, n).books == Drop(k, bs[0].digest)
  {
    assert bs[..0] == [] && bs[..1] == [bs[0]];
    TryNext(k, bs, 0);
    assert TryFirst(k, bs, 1).took == [] + [bs[0]] == [bs[0]];
    assert [bs[0]][1..] == [];
    StopsAtFirst(k, {}, bs, 2, 1, n);
  }

  /** What a pass with room for one of the two leaves. */
  lemma TiePass(d: Digest, e: Digest, k: Books, local: seq<Blob>, n: nat)
    requires d != e && k.held == map[e := 1, d := 1] && local == [Blob(e, 1), Blob(d, 1)]
    requires StopsAt(k, {}, Order(OneAccess(e), local), Size(local), 1, n)
    ensures TryFirst(k, Order(OneAccess(e), local), n).books.held == map[d := 1]
  {
    TieKeepsListing(d, e);
    SizeOfTwo(Blob(e, 1), Blob(d, 1));
    TwoOfOne(k, local, n);
  }

  /** "Never touched is coldest" fails at this input: after a single access, of `e`, a pass that
      must drop one of two blobs drops `e` and spares `d`, which nobody ever accessed. */
  method FirstAccessGoesFirst(d: Digest, e: Digest) returns (log: AccessLog, cache: Cache)
    requires d != e
    ensures fresh(log) && log.Valid() && log.touches == [e] && d !in log.lastTouch
    ensures fresh(cache) && cache.held == map[d := 1]
  {
    log := new AccessLog();
    log.Touch(e);
    cache := new Cache(Books(map[e := 1, d := 1], log.lastTouch, map[]));
    var local := Both(e, d);
    ghost var before := cache.View();
    var r, n := cache.EvictToBudget(Snapshot({}, {}, map[], 0, 0, log.lastTouch, {}), local, Some(1), {});
    assert log.lastTouch == map[e := 0];
    TiePass(d, e, before, local, n);
  }

  method Both(e: Digest, d: Digest) returns (local: seq<Blob>)
    ensures local == [Blob(e, 1), Blob(d, 1)] && Size(local) == 2
  {
    local := [Blob(e, 1), Blob(d, 1)];
    SizeOfTwo(Blob(e, 1), Blob(d, 1));
  }
}
