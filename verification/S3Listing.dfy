/** Listing the held SHA-256 blobs page by page, in key order. */
module S3Listing {
  import opened Core
  import opened Digests
  import opened Canonical
  import opened Sorting
  import opened S3Keys

  datatype LocalBlob = LocalBlob(digest: Digest, size: nat)

  datatype Item = Item(key: Bytes, size: nat, digest: Digest)

  /** The enumerated SHA-256 blobs under their canonical keys. */
  function Items(local: seq<LocalBlob>): seq<Item> {
    if |local| == 0 then []
    else if local[0].digest.algo != Sha256 then Items(local[1..])
    else [Item(CanonicalKey(local[0].digest), local[0].size, local[0].digest)] + Items(local[1..])
  }

  predicate After(prefix: Bytes, after: Option<Bytes>, key: Bytes) {
    prefix <= key && (after.Some? ==> Less(after.value, key))
  }

  predicate Wanted(prefix: Bytes, after: Option<Bytes>, x: Item) {
    After(prefix, after, x.key)
  }

  function Wants(prefix: Bytes, after: Option<Bytes>): Item -> bool {
    (x: Item) => Wanted(prefix, after, x)
  }

  predicate KeyLe(a: Item, b: Item) {
    !Less(b.key, a.key)
  }

  lemma KeyLePreorder()
    ensures Preorder(KeyLe)
  {
    forall x: Item, y: Item ensures KeyLe(x, y) || KeyLe(y, x) {
      LessTotal(x.key, y.key);
    }
    forall x: Item, y: Item, z: Item | KeyLe(x, y) && KeyLe(y, z) ensures KeyLe(x, z) {
      LessTotal(x.key, y.key);
      LessTotal(y.key, z.key);
      if Less(x.key, y.key) && Less(y.key, z.key) {
        LessTransitive(x.key, y.key, z.key);
      }
      LessTotal(x.key, z.key);
    }
  }

  /** Everything wanted, in key order. */
  function Wholly(items: seq<Item>, prefix: Bytes, after: Option<Bytes>): seq<Item> {
    Filter(Wants(prefix, after), Sort(KeyLe, items))
  }

  /** Up to `max` of what is wanted, and the last key listed when there is more. */
  function Page(items: seq<Item>, prefix: Bytes, after: Option<Bytes>, max: nat): (r: (seq<Item>, Option<Bytes>))
    ensures r.1.Some? ==> max > 0 && |Wholly(items, prefix, after)| > max
  {
    var all := Wholly(items, prefix, after);
    if |all| <= max then (all, None)
    else if max == 0 then ([], None)
    else (all[..max], Some(all[max - 1].key))
  }

  lemma WhollyFrom(items: seq<Item>, prefix: Bytes, after: Option<Bytes>, x: Item)
    ensures x in Wholly(items, prefix, after) <==>
              x in items && prefix <= x.key && (after.Some? ==> Less(after.value, x.key))
  {
    KeyLePreorder();
    SortSorts(KeyLe, items);
    FilterMembers(Wants(prefix, after), Sort(KeyLe, items));
    assert x in items <==> x in multiset(Sort(KeyLe, items));
  }

  /** Retain, sort, truncate. */
  method ListPage(items: seq<Item>, prefix: Bytes, after: Option<Bytes>, max: nat)
    returns (page: seq<Item>, next: Option<Bytes>)
    ensures (page, next) == Page(items, prefix, after, max)
    ensures |page| <= max && (forall x :: x in page ==> x in items && prefix <= x.key)
    ensures next.Some? ==> |page| == max && page[max - 1].key == next.value
  {
    KeyLePreorder();
    FilterSort(KeyLe, Wants(prefix, after), items);
    var blobs := Filter(Wants(prefix, after), items);
    blobs := Sort(KeyLe, blobs);
    var truncated := |blobs| > max && max > 0;
    if |blobs| > max {
      blobs := blobs[..max];
    }
    page := blobs;
    next := if truncated then Some(blobs[|blobs| - 1].key) else None;
    assert forall x :: x in page ==> x in Wholly(items, prefix, after);
    forall x | x in Wholly(items, prefix, after) ensures x in items && prefix <= x.key {
      WhollyFrom(items, prefix, after, x);
    }
  }

  // ---- Chaining pages ----

  /** Keys strictly rise. */
  ghost predicate Rising(items: seq<Item>) {
    forall i, j {:trigger Less(items[i].key, items[j].key)} :: 0 <= i < j < |items| ==> Less(items[i].key, items[j].key)
  }

  /** Keys never fall. */
  ghost predicate Climbing(items: seq<Item>) {
    forall i, j {:trigger KeyLe(items[i], items[j])} :: 0 <= i < j < |items| ==> KeyLe(items[i], items[j])
  }

  lemma WhollyClimbs(items: seq<Item>, prefix: Bytes, after: Option<Bytes>)
    ensures Climbing(Wholly(items, prefix, after))
  {
    var all := Wholly(items, prefix, after);
    KeyLePreorder();
    SortSorts(KeyLe, items);
    FilterSorted(KeyLe, Wants(prefix, after), Sort(KeyLe, items));
    forall i, j | 0 <= i < j < |all| ensures KeyLe(all[i], all[j]) {
      SortedAt(KeyLe, all, i, j);
    }
  }

  /** Where the keys pass `key`, in a listing that never falls. */
  lemma {:induction false} Passes(all: seq<Item>, key: Bytes, n: nat) returns (k: nat)
    requires n <= |all| && Climbing(all) && (forall i :: 0 <= i < n ==> !Less(key, all[i].key))
    ensures n <= k <= |all| && (forall i :: 0 <= i < |all| ==> (Less(key, all[i].key) <==> k <= i))
    decreases |all| - n
  {
    if n == |all| {
      k := n;
    } else if Less(key, all[n].key) {
      k := n;
      forall i | n < i < |all| ensures Less(key, all[i].key) {
        assert KeyLe(all[n], all[i]);
        LessTotal(all[n].key, all[i].key);
        if all[n].key != all[i].key {
          LessTransitive(key, all[n].key, all[i].key);
        }
      }
    } else {
      k := Passes(all, key, n + 1);
    }
  }

  /** What follows the token is what the page left out, less any repeats of its last key. */
  lemma TokenContinues(items: seq<Item>, prefix: Bytes, after: Option<Bytes>, max: nat) returns (k: nat)
    requires Page(items, prefix, after, max).1.Some?
    ensures var all := Wholly(items, prefix, after);
            && max <= k <= |all|
            && Wholly(items, prefix, Page(items, prefix, after, max).1) == all[k..]
            && (forall i :: max <= i < k ==> all[i].key == all[max - 1].key)
  {
    var all, token := Wholly(items, prefix, after), Page(items, prefix, after, max).1;
    var sorted := Sort(KeyLe, items);
    FilterMembers(Wants(prefix, after), sorted);
    assert all[max - 1] in all;
    forall x | Wanted(prefix, token, x) ensures Wanted(prefix, after, x) {
      if after.Some? {
        LessTransitive(after.value, token.value, x.key);
      }
    }
    FilterTwice(Wants(prefix, after), Wants(prefix, token), sorted);
    WhollyClimbs(items, prefix, after);
    NotPast(all, max);
    k := Passes(all, token.value, max);
    forall i | 0 <= i < |all| ensures Wanted(prefix, token, all[i]) <==> k <= i {
      assert all[i] in all;
    }
    FilterDrops(Wants(prefix, token), all, k);
    forall i | max <= i < k ensures all[i].key == all[max - 1].key {
      assert KeyLe(all[max - 1], all[i]);
      LessTotal(all[max - 1].key, all[i].key);
    }
  }

  /** No row of a page comes after its last. */
  lemma NotPast(all: seq<Item>, max: nat)
    requires 0 < max <= |all| && Climbing(all)
    ensures forall i :: 0 <= i < max ==> !Less(all[max - 1].key, all[i].key)
  {
    forall i | 0 <= i < max ensures !Less(all[max - 1].key, all[i].key) {
      LessTotal(all[i].key, all[max - 1].key);
      assert i < max - 1 ==> KeyLe(all[i], all[max - 1]);
    }
  }

  /** A client asks again with each token until there is none: the pages it gets. */
  ghost predicate Chained(items: seq<Item>, prefix: Bytes, after: Option<Bytes>, max: nat, pages: seq<seq<Item>>)
    decreases |pages|
  {
    && |pages| > 0
    && pages[0] == Page(items, prefix, after, max).0
    && (match Page(items, prefix, after, max).1
        case None => |pages| == 1
        case Some(_) => Chained(items, prefix, Page(items, prefix, after, max).1, max, pages[1..]))
  }

  function Joined(pages: seq<seq<Item>>): seq<Item> {
    if |pages| == 0 then [] else pages[0] + Joined(pages[1..])
  }

  /** Whatever is enumerated there is such a chain, of no more pages than there are items, and
      one more. */
  lemma {:induction false} ChainEnds(items: seq<Item>, prefix: Bytes, after: Option<Bytes>, max: nat) returns (pages: seq<seq<Item>>)
    requires max > 0
    ensures Chained(items, prefix, after, max, pages) && |pages| <= |Wholly(items, prefix, after)| + 1
    decreases |Wholly(items, prefix, after)|
  {
    var page, token := Page(items, prefix, after, max).0, Page(items, prefix, after, max).1;
    if token.None? {
      pages := [page];
    } else {
      var k := TokenContinues(items, prefix, after, max);
      var rest := ChainEnds(items, prefix, token, max);
      pages := [page] + rest;
      assert pages[1..] == rest;
    }
  }

  /** `some` leaves out rows of `all`, but never the last of a key. */
  ghost predicate Thins(some: seq<Item>, all: seq<Item>) {
    && (forall x :: x in some ==> x in all)
    && (forall x :: x in all ==> Names(some, x.key))
  }

  ghost predicate Names(items: seq<Item>, key: Bytes) {
    exists y :: y in items && y.key == key
  }

  lemma ThinsJoin(page: seq<Item>, some: seq<Item>, all: seq<Item>, k: nat)
    requires 0 < |page| <= k <= |all| && page == all[..|page|] && Thins(some, all[k..])
    requires forall i :: |page| <= i < k ==> all[i].key == all[|page| - 1].key
    ensures Thins(page + some, all)
  {
    forall x | x in all ensures Names(page + some, x.key) {
      var i :| 0 <= i < |all| && all[i] == x;
      if i < |page| {
        assert page[i] in page + some;
      } else if i < k {
        assert page[|page| - 1] in page + some;
      } else {
        assert x == all[k..][i - k];
        assert Names(some, x.key);
        var y :| y in some && y.key == x.key;
        assert y in page + some;
      }
    }
    forall x | x in page + some ensures x in all {
      if x in some {
        assert x in all[k..];
      }
    }
  }

  /** A chain lists nothing but what is wanted, and every wanted key. */
  lemma {:induction false} ChainThins(items: seq<Item>, prefix: Bytes, after: Option<Bytes>, max: nat, pages: seq<seq<Item>>)
    requires max > 0 && Chained(items, prefix, after, max, pages)
    ensures Thins(Joined(pages), Wholly(items, prefix, after))
    decreases |pages|
  {
    var all, token := Wholly(items, prefix, after), Page(items, prefix, after, max).1;
    if token.None? {
      assert pages[1..] == [] && pages[0] + [] == pages[0];
      assert forall x :: x in all ==> x.key == x.key;
    } else {
      var k := TokenContinues(items, prefix, after, max);
      ChainThins(items, prefix, token, max, pages[1..]);
      ThinsJoin(pages[0], Joined(pages[1..]), all, k);
    }
  }

  lemma ClimbsJoin(page: seq<Item>, some: seq<Item>, all: seq<Item>, k: nat)
    requires |page| <= k <= |all| && page == all[..|page|] && Climbing(all) && Climbing(some)
    requires forall x :: x in some ==> x in all[k..]
    ensures Climbing(page + some)
  {
    var both := page + some;
    forall i, j | 0 <= i < j < |both| ensures KeyLe(both[i], both[j]) {
      if j < |page| {
        assert KeyLe(all[i], all[j]);
      } else if i >= |page| {
        assert KeyLe(some[i - |page|], some[j - |page|]);
      } else {
        var x := some[j - |page|];
        assert x in some;
        var m :| 0 <= m < |all[k..]| && all[k..][m] == x;
        assert KeyLe(all[i], all[k + m]);
      }
    }
  }

  /** A chain lists in key order. */
  lemma {:induction false} ChainClimbs(items: seq<Item>, prefix: Bytes, after: Option<Bytes>, max: nat, pages: seq<seq<Item>>)
    requires max > 0 && Chained(items, prefix, after, max, pages)
    ensures Climbing(Joined(pages))
    decreases |pages|
  {
    var all, token := Wholly(items, prefix, after), Page(items, prefix, after, max).1;
    WhollyClimbs(items, prefix, after);
    if token.None? {
      assert pages[1..] == [] && pages[0] + [] == pages[0];
    } else {
      var k := TokenContinues(items, prefix, after, max);
      ChainClimbs(items, prefix, token, max, pages[1..]);
      ChainThins(items, prefix, token, max, pages[1..]);
      ClimbsJoin(pages[0], Joined(pages[1..]), all, k);
    }
  }

  /** With no key repeated, a chain is the whole listing. */
  lemma {:induction false} ChainComplete(items: seq<Item>, prefix: Bytes, after: Option<Bytes>, max: nat, pages: seq<seq<Item>>)
    requires max > 0 && Chained(items, prefix, after, max, pages) && Rising(Wholly(items, prefix, after))
    ensures Joined(pages) == Wholly(items, prefix, after)
    decreases |pages|
  {
    var all, token := Wholly(items, prefix, after), Page(items, prefix, after, max).1;
    if token.None? {
      assert pages[1..] == [] && pages[0] + [] == pages[0];
    } else {
      var k := TokenContinues(items, prefix, after, max);
      assert max < k ==> Less(all[max - 1].key, all[max].key);
      LessTotal(all[max - 1].key, all[max - 1].key);
      RisingTail(all, max);
      ChainComplete(items, prefix, token, max, pages[1..]);
      assert all == all[..max] + all[max..];
    }
  }

  lemma RisingTail(items: seq<Item>, k: nat)
    requires k <= |items| && Rising(items)
    ensures Rising(items[k..])
  {
    forall i, j | 0 <= i < j < |items[k..]| ensures Less(items[k..][i].key, items[k..][j].key) {
      assert Less(items[k + i].key, items[k + j].key);
    }
  }

  // ---- From held blobs to listed keys ----

  lemma {:induction false} ItemsOf(local: seq<LocalBlob>, x: Item)
    ensures x in Items(local) <==>
              x.key == CanonicalKey(x.digest) && x.digest.algo == Sha256 && LocalBlob(x.digest, x.size) in local
  {
    if |local| > 0 {
      ItemsOf(local[1..], x);
      assert local == [local[0]] + local[1..];
    }
  }

  lemma WhollyMembers(local: seq<LocalBlob>, prefix: Bytes, after: Option<Bytes>, x: Item)
    ensures x in Wholly(Items(local), prefix, after) <==>
              && x.key == CanonicalKey(x.digest) && x.digest.algo == Sha256
              && LocalBlob(x.digest, x.size) in local && Wanted(prefix, after, x)
  {
    WhollyFrom(Items(local), prefix, after, x);
    ItemsOf(local, x);
  }

  /** The blob is a SHA-256 one whose key has the prefix and comes after the start. */
  predicate Matches(prefix: Bytes, after: Option<Bytes>, b: LocalBlob) {
    b.digest.algo == Sha256 && After(prefix, after, CanonicalKey(b.digest))
  }

  /** Whatever is enumerated, chaining pages of any size through the token comes to an end, and
      lists exactly the matching blobs' digests in key order: each at least once, and nothing
      else. */
  lemma ChainListsHeld(local: seq<LocalBlob>, prefix: Bytes, after: Option<Bytes>, max: nat)
    requires max > 0
    ensures exists pages :: Chained(Items(local), prefix, after, max, pages)
    ensures forall pages :: Chained(Items(local), prefix, after, max, pages) ==> Climbing(Joined(pages))
    ensures forall pages, d :: Chained(Items(local), prefix, after, max, pages) ==>
              (Lists(Joined(pages), d) <==>
                 && (exists b :: b in local && b.digest == d)
                 && d.algo == Sha256 && prefix <= CanonicalKey(d) && (after.Some? ==> Less(after.value, CanonicalKey(d))))
  {
    var items := Items(local);
    var some := ChainEnds(items, prefix, after, max);
    forall pages | Chained(items, prefix, after, max, pages) ensures Climbing(Joined(pages)) {
      ChainClimbs(items, prefix, after, max, pages);
    }
    forall pages, d | Chained(items, prefix, after, max, pages)
      ensures Lists(Joined(pages), d) <==>
                && (exists b :: b in local && b.digest == d)
                && d.algo == Sha256 && prefix <= CanonicalKey(d) && (after.Some? ==> Less(after.value, CanonicalKey(d)))
    {
      ListsMatching(local, prefix, after, max, pages, d);
    }
  }

  ghost predicate Lists(items: seq<Item>, d: Digest) {
    exists x :: x in items && x.digest == d
  }

  lemma ListsMatching(local: seq<LocalBlob>, prefix: Bytes, after: Option<Bytes>, max: nat, pages: seq<seq<Item>>, d: Digest)
    requires max > 0 && Chained(Items(local), prefix, after, max, pages)
    ensures Lists(Joined(pages), d) <==> exists b :: b in local && b.digest == d && Matches(prefix, after, b)
  {
    var all := Wholly(Items(local), prefix, after);
    ChainThins(Items(local), prefix, after, max, pages);
    if Lists(Joined(pages), d) {
      var x :| x in Joined(pages) && x.digest == d;
      WhollyMembers(local, prefix, after, x);
      assert Matches(prefix, after, LocalBlob(x.digest, x.size));
    }
    forall b | b in local && b.digest == d && Matches(prefix, after, b) ensures Lists(Joined(pages), d) {
      var x := Item(CanonicalKey(d), b.size, d);
      WhollyMembers(local, prefix, after, x);
      assert Names(Joined(pages), x.key);
      var y :| y in Joined(pages) && y.key == x.key;
      WhollyMembers(local, prefix, after, y);
      KeysDiffer(y.digest, d);
    }
  }

  // ---- Exactly once ----

  /** How often a digest is listed. */
  function Times(d: Digest, items: seq<Item>): nat {
    |Filter(Of(d), items)|
  }

  function Of(d: Digest): Item -> bool {
    (x: Item) => x.digest == d
  }

  /** At every page size, each matching blob is listed once. */
  ghost predicate ListsOnce(local: seq<LocalBlob>, prefix: Bytes, after: Option<Bytes>) {
    forall max: nat, pages, b ::
      max > 0 && Chained(Items(local), prefix, after, max, pages) && b in local && Matches(prefix, after, b) ==>
        Times(b.digest, Joined(pages)) == 1
  }

  /** No two enumerated blobs that match share a digest. */
  ghost predicate OneEach(local: seq<LocalBlob>, prefix: Bytes, after: Option<Bytes>) {
    forall i, j :: 0 <= i < j < |local| && Matches(prefix, after, local[i]) && Matches(prefix, after, local[j]) ==>
      local[i].digest != local[j].digest
  }

  predicate OtherKey(a: Item, b: Item) {
    a.key != b.key
  }

  predicate KeyLt(a: Item, b: Item) {
    Less(a.key, b.key)
  }

  /** The matching items, before sorting. */
  function Matching(local: seq<LocalBlob>, prefix: Bytes, after: Option<Bytes>): seq<Item> {
    Filter(Wants(prefix, after), Items(local))
  }

  lemma MatchingMembers(local: seq<LocalBlob>, prefix: Bytes, after: Option<Bytes>, x: Item)
    requires x in Matching(local, prefix, after)
    ensures LocalBlob(x.digest, x.size) in local && Matches(prefix, after, LocalBlob(x.digest, x.size))
    ensures x.key == CanonicalKey(x.digest)
  {
    FilterMembers(Wants(prefix, after), Items(local));
    ItemsOf(local, x);
  }

  lemma MatchingHead(local: seq<LocalBlob>, prefix: Bytes, after: Option<Bytes>)
    requires |local| > 0
    ensures var b, rest := local[0], Matching(local[1..], prefix, after);
            Matching(local, prefix, after) ==
              if Matches(prefix, after, b) then [Item(CanonicalKey(b.digest), b.size, b.digest)] + rest else rest
  {
    var b, rest := local[0], Items(local[1..]);
    var x := Item(CanonicalKey(b.digest), b.size, b.digest);
    assert b.digest.algo == Sha256 ==> Items(local)[1..] == rest;
    assert [] + Filter(Wants(prefix, after), rest) == Filter(Wants(prefix, after), rest);
  }

  lemma {:induction false} MatchingApart(local: seq<LocalBlob>, prefix: Bytes, after: Option<Bytes>)
    requires OneEach(local, prefix, after)
    ensures Apart(OtherKey, Matching(local, prefix, after))
  {
    if |local| > 0 {
      var b, rest := local[0], Matching(local[1..], prefix, after);
      forall i, j | 0 <= i < j < |local[1..]| && Matches(prefix, after, local[1..][i]) && Matches(prefix, after, local[1..][j])
        ensures local[1..][i].digest != local[1..][j].digest
      {
        assert local[i + 1].digest != local[j + 1].digest;
      }
      MatchingApart(local[1..], prefix, after);
      MatchingHead(local, prefix, after);
      if Matches(prefix, after, b) {
        forall x | x in rest ensures x.key != CanonicalKey(b.digest) {
          OtherBlob(local, prefix, after, x);
        }
        assert Matching(local, prefix, after)[1..] == rest;
      }
    }
  }

  lemma OtherBlob(local: seq<LocalBlob>, prefix: Bytes, after: Option<Bytes>, x: Item)
    requires |local| > 0 && Matches(prefix, after, local[0]) && OneEach(local, prefix, after)
    requires x in Matching(local[1..], prefix, after)
    ensures x.key != CanonicalKey(local[0].digest)
  {
    MatchingMembers(local[1..], prefix, after, x);
    var j :| 0 <= j < |local[1..]| && local[1..][j] == LocalBlob(x.digest, x.size);
    assert local[0].digest != local[j + 1].digest;
    if x.key == CanonicalKey(local[0].digest) {
      KeysDiffer(x.digest, local[0].digest);
    }
  }

  lemma WhollyRises(local: seq<LocalBlob>, prefix: Bytes, after: Option<Bytes>)
    requires OneEach(local, prefix, after)
    ensures Rising(Wholly(Items(local), prefix, after))
  {
    var some, all := Matching(local, prefix, after), Wholly(Items(local), prefix, after);
    KeyLePreorder();
    FilterSort(KeyLe, Wants(prefix, after), Items(local));
    MatchingApart(local, prefix, after);
    SortSorts(KeyLe, some);
    SortApart(KeyLe, OtherKey, some);
    forall x: Item, y: Item | KeyLe(x, y) && OtherKey(x, y) ensures KeyLt(x, y) {
      LessTotal(x.key, y.key);
    }
    SortedStrictly(KeyLe, OtherKey, KeyLt, all);
    forall i, j | 0 <= i < j < |all| ensures Less(all[i].key, all[j].key) {
      SortedAt(KeyLt, all, i, j);
    }
  }

  lemma {:induction false} TimesOne(items: seq<Item>, d: Digest)
    requires Rising(items) && (forall x :: x in items ==> x.key == CanonicalKey(x.digest))
    ensures Times(d, items) <= 1
  {
    if |items| > 0 {
      var rest := items[1..];
      RisingTail(items, 1);
      assert forall x :: x in rest ==> x in items;
      TimesOne(rest, d);
      assert [] + Filter(Of(d), rest) == Filter(Of(d), rest);
      if items[0].digest == d {
        forall x | x in rest ensures x.digest != d {
          var j :| 0 <= j < |rest| && rest[j] == x;
          assert Less(items[0].key, items[j + 1].key) && items[0] in items;
          LessTotal(items[0].key, items[0].key);
        }
        FilterNone(Of(d), rest);
      }
    }
  }

  lemma TimesSome(items: seq<Item>, d: Digest)
    requires Lists(items, d)
    ensures Times(d, items) >= 1
  {
    FilterMembers(Of(d), items);
    var x :| x in items && x.digest == d;
    assert x in Filter(Of(d), items);
  }

  lemma {:induction false} SortLength(items: seq<Item>)
    ensures |Sort(KeyLe, items)| == |items|
  {
    KeyLePreorder();
    SortSorts(KeyLe, items);
    assert |multiset(items)| == |items| && |multiset(Sort(KeyLe, items))| == |Sort(KeyLe, items)|;
  }

  /** Sorting does not change how often a digest is there. */
  lemma TimesWholly(local: seq<LocalBlob>, prefix: Bytes, after: Option<Bytes>, d: Digest)
    ensures Times(d, Wholly(Items(local), prefix, after)) == Times(d, Matching(local, prefix, after))
  {
    var some := Matching(local, prefix, after);
    KeyLePreorder();
    FilterSort(KeyLe, Wants(prefix, after), Items(local));
    FilterSort(KeyLe, Of(d), some);
    SortLength(Filter(Of(d), some));
  }

  lemma {:induction false} TimesFirst(local: seq<LocalBlob>, prefix: Bytes, after: Option<Bytes>, j: nat)
    requires j < |local| && Matches(prefix, after, local[j])
    ensures Times(local[j].digest, Matching(local, prefix, after)) >= 1
  {
    MatchingHead(local, prefix, after);
    var d, rest := local[j].digest, Matching(local[1..], prefix, after);
    if j > 0 {
      TimesFirst(local[1..], prefix, after, j - 1);
    }
    TimesHead(local, prefix, after, d);
  }

  lemma TimesHead(local: seq<LocalBlob>, prefix: Bytes, after: Option<Bytes>, d: Digest)
    requires |local| > 0
    ensures Times(d, Matching(local, prefix, after)) == Times(d, Matching(local[1..], prefix, after))
              + if Matches(prefix, after, local[0]) && local[0].digest == d then 1 else 0
  {
    MatchingHead(local, prefix, after);
    var rest := Matching(local[1..], prefix, after);
    var x := Item(CanonicalKey(local[0].digest), local[0].size, local[0].digest);
    assert ([x] + rest)[1..] == rest && [] + Filter(Of(d), rest) == Filter(Of(d), rest);
  }

  /** Two matching blobs of one digest make it twice. */
  lemma {:induction false} TimesTwice(local: seq<LocalBlob>, prefix: Bytes, after: Option<Bytes>, i: nat, j: nat)
    requires i < j < |local| && Matches(prefix, after, local[i]) && Matches(prefix, after, local[j])
    requires local[i].digest == local[j].digest
    ensures Times(local[i].digest, Matching(local, prefix, after)) >= 2
  {
    TimesHead(local, prefix, after, local[i].digest);
    if i == 0 {
      TimesFirst(local[1..], prefix, after, j - 1);
    } else {
      TimesTwice(local[1..], prefix, after, i - 1, j - 1);
    }
  }

  lemma OnceWhenOneEach(local: seq<LocalBlob>, prefix: Bytes, after: Option<Bytes>, max: nat, pages: seq<seq<Item>>, b: LocalBlob)
    requires OneEach(local, prefix, after) && b in local && Matches(prefix, after, b)
    requires max > 0 && Chained(Items(local), prefix, after, max, pages)
    ensures Rising(Joined(pages)) && Times(b.digest, Joined(pages)) == 1
  {
    WhollyRises(local, prefix, after);
    ChainComplete(Items(local), prefix, after, max, pages);
    ListsMatching(local, prefix, after, max, pages, b.digest);
    TimesSome(Joined(pages), b.digest);
    forall x | x in Joined(pages) ensures x.key == CanonicalKey(x.digest) {
      WhollyMembers(local, prefix, after, x);
    }
    TimesOne(Joined(pages), b.digest);
  }

  /** One page that holds everything. */
  lemma OnePage(items: seq<Item>, prefix: Bytes, after: Option<Bytes>, max: nat)
    requires max >= |Wholly(items, prefix, after)|
    ensures Chained(items, prefix, after, max, [Wholly(items, prefix, after)])
    ensures Joined([Wholly(items, prefix, after)]) == Wholly(items, prefix, after)
  {
    var all := Wholly(items, prefix, after);
    assert [all][1..] == [] && all + [] == all;
  }

  /** Every matching blob is listed exactly once at every page size, if and only if no two
      enumerated blobs that match share a digest. */
  lemma ListsOnceExactly(local: seq<LocalBlob>, prefix: Bytes, after: Option<Bytes>)
    ensures ListsOnce(local, prefix, after) <==> OneEach(local, prefix, after)
  {
    if OneEach(local, prefix, after) {
      forall max: nat, pages, b |
        max > 0 && Chained(Items(local), prefix, after, max, pages) && b in local && Matches(prefix, after, b)
        ensures Times(b.digest, Joined(pages)) == 1
      {
        OnceWhenOneEach(local, prefix, after, max, pages, b);
      }
    }
    if ListsOnce(local, prefix, after) {
      forall i, j | 0 <= i < j < |local| && Matches(prefix, after, local[i]) && Matches(prefix, after, local[j])
        ensures local[i].digest != local[j].digest
      {
        var all := Wholly(Items(local), prefix, after);
        OnePage(Items(local), prefix, after, |all| + 1);
        assert local[i] in local && Times(local[i].digest, Joined([all])) == 1;
        TimesWholly(local, prefix, after, local[i].digest);
        if local[i].digest == local[j].digest {
          TimesTwice(local, prefix, after, i, j);
        }
      }
    }
  }

  lemma TwoItems(b: LocalBlob)
    requires b.digest.algo == Sha256
    ensures var x := Item(CanonicalKey(b.digest), b.size, b.digest);
            Items([b, b]) == [x, x] && Wholly(Items([b, b]), [], None) == [x, x]
  {
    var x := Item(CanonicalKey(b.digest), b.size, b.digest);
    assert [b, b][1..] == [b] && [b][1..] == [];
    assert Items([]) == [] && Items([b]) == [x] && Items([b, b]) == [x] + [x] == [x, x];
    LessTotal(x.key, x.key);
    assert KeyLe(x, x);
    assert [x, x][1..] == [x] && [x][1..] == [];
    assert Sort(KeyLe, [x]) == [x] + [] == [x];
    assert Insert(KeyLe, x, [x]) == [x] + [x] == [x, x];
    FilterAll(Wants([], None), [x, x]);
  }

  /** A blob enumerated twice is listed twice when both fall on one page; at page size one the
      token skips the second. */
  lemma RepeatOnOnePage(b: LocalBlob, max: nat)
    requires b.digest.algo == Sha256
    ensures var x := Item(CanonicalKey(b.digest), b.size, b.digest);
            && (max >= 2 ==> Page(Items([b, b]), [], None, max) == ([x, x], None))
            && Page(Items([b, b]), [], None, 1) == ([x], Some(x.key))
            && Page(Items([b, b]), [], Some(x.key), 1) == ([], None)
  {
    var x := Item(CanonicalKey(b.digest), b.size, b.digest);
    TwoItems(b);
    var k := TokenContinues(Items([b, b]), [], None, 1);
    LessTotal(x.key, x.key);
    WhollySkips(b, x);
  }

  lemma WhollySkips(b: LocalBlob, x: Item)
    requires b.digest.algo == Sha256 && x == Item(CanonicalKey(b.digest), b.size, b.digest)
    ensures Wholly(Items([b, b]), [], Some(x.key)) == []
  {
    var sorted := Sort(KeyLe, Items([b, b]));
    KeyLePreorder();
    SortSorts(KeyLe, Items([b, b]));
    TwoItems(b);
    LessTotal(x.key, x.key);
    forall y | y in sorted ensures y == x {
      assert y in multiset(sorted);
    }
    FilterNone(Wants([], Some(x.key)), sorted);
  }
}
