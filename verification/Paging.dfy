/** Reading a directory page by page while it changes. */
module Paging {
  import opened Core
  import opened Digests
  import opened Canonical
  import opened Cookies

  // ---- One page ----

  /** How many rows come no later than a cookie. */
  function Skipped(rows: seq<Row>, start: nat): (k: nat)
    ensures k <= |rows|
    ensures forall i :: 0 <= i < k ==> rows[i].0 <= start
    ensures k < |rows| ==> rows[k].0 > start
  {
    if |rows| == 0 || rows[0].0 > start then 0 else 1 + Skipped(rows[1..], start)
  }

  /** A reply: some rows that follow the cookie, without a gap. It claims the end only when
      nothing is left, and otherwise makes progress. */
  ghost predicate Reply(rows: seq<Row>, start: nat, page: seq<Row>, end: bool) {
    && page <= rows[Skipped(rows, start)..]
    && (end ==> page == rows[Skipped(rows, start)..])
    && (!end ==> page != [])
  }

  /** Up to `max` rows after the cookie, with the end flag set exactly when these are all. */
  function PageOf(rows: seq<Row>, start: nat, max: nat): (seq<Row>, bool) {
    var rest := rows[Skipped(rows, start)..];
    if |rest| <= max then (rest, true) else (rest[..max], false)
  }

  datatype ReadError = EntryVanished(name: Name)

  /** `gone` are names that vanish between listing the directory and looking at each entry: one
      on the page fails the page, and one past its end is never looked at. */
  method ReadDir(rows: seq<Row>, start: nat, max: nat, gone: set<Name>) returns (r: Result<(seq<Row>, bool), ReadError>)
    ensures r.Ok? <==> forall row :: row in PageOf(rows, start, max).0 ==> row.1 !in gone
    ensures r.Ok? ==> r.value == PageOf(rows, start, max)
    ensures r.Ok? && max > 0 ==> Reply(rows, start, r.value.0, r.value.1) && |r.value.0| <= max
    ensures r.Err? ==> r.error.name in gone && r.error.name in NamesOf(rows)
  {
    ghost var rest := rows[Skipped(rows, start)..];
    var skip := Skipped(rows, start);
    var page := [];
    var i := skip;
    while i < |rows| && |page| < max
      invariant skip <= i <= |rows|
      invariant page == rest[..i - skip] && |page| <= max
      invariant forall row :: row in page ==> row.1 !in gone
    {
      assert rest[..i - skip] + [rest[i - skip]] == rest[..i - skip + 1];
      if rows[i].1 in gone {
        assert rows[i] == PageOf(rows, start, max).0[i - skip];
        assert NamesOf(rows)[i] == rows[i].1;
        return Err(EntryVanished(rows[i].1));
      }
      page := page + [rows[i]];
      i := i + 1;
    }
    assert rest[..|rest|] == rest;
    return Ok((page, |page| == |rows| - skip));
  }

  // ---- Paging through a directory that changes ----

  /** One page served: the directory as it was then, and the reply. */
  datatype Visit = Visit(dir: Dir, page: seq<Row>, end: bool)

  ghost predicate Served(hash: NameHash, start: nat, v: Visit) {
    exists rows :: Listing(hash, v.dir, rows) && Reply(rows, start, v.page, v.end)
  }

  lemma HashedNames(h: Hash, names: seq<Name>, rows: seq<Row>, dir: Dir)
    requires |rows| == |names| && multiset(names) == multiset(dir)
    requires forall i :: 0 <= i < |rows| ==> rows[i] == (NameCookie(h, names[i]), names[i])
    ensures Entries(Hashing(h), dir, rows)
  {
    assert NamesOf(rows) == names;
  }

  /** One request: hash the names the file system lists, assign their cookies, take a page. */
  method ServePage(h: Hash, names: seq<Name>, ghost dir: Dir, start: nat, max: nat, gone: set<Name>)
    returns (r: Result<(seq<Row>, bool), ReadError>)
    requires multiset(names) == multiset(dir)
    ensures r.Ok? && max > 0 ==> Served(Hashing(h), start, Visit(dir, r.value.0, r.value.1))
    ensures r.Ok? ==> |r.value.0| <= max && forall row :: row in r.value.0 ==> row.1 in dir - gone
    ensures r.Err? ==> r.error.name in dir * gone
  {
    var found := HashNames(h, names);
    HashedNames(h, names, found, dir);
    var rows := AssignCookies(Hashing(h), dir, found);
    PageNames(rows, dir, start, max);
    r := ReadDir(rows, start, max, gone);
  }

  method HashNames(h: Hash, names: seq<Name>) returns (found: seq<Row>)
    ensures |found| == |names|
    ensures forall i :: 0 <= i < |names| ==> found[i] == (NameCookie(h, names[i]), names[i])
  {
    found := [];
    for i := 0 to |names|
      invariant |found| == i && forall k :: 0 <= k < i ==> found[k] == (NameCookie(h, names[k]), names[k])
    {
      found := found + [(NameCookie(h, names[i]), names[i])];
    }
  }

  lemma PageNames(rows: seq<Row>, dir: Dir, start: nat, max: nat)
    requires Covers(rows, dir)
    ensures forall n :: n in NamesOf(rows) ==> n in dir
    ensures |PageOf(rows, start, max).0| <= max
    ensures forall row :: row in PageOf(rows, start, max).0 ==> row.1 in dir
  {
    forall i | 0 <= i < |rows| ensures rows[i].1 in dir {
      CoversOnly(rows, dir, i);
    }
    assert forall row :: row in PageOf(rows, start, max).0 ==> row in rows;
  }

  function Resume(start: nat, page: seq<Row>): nat {
    if page == [] then start else page[|page| - 1].0
  }

  /** A client pages on from the last cookie it got, until it is told it reached the end. */
  ghost predicate Paged(hash: NameHash, start: nat, visits: seq<Visit>)
    decreases |visits|
  {
    visits == [] ||
    (&& Served(hash, start, visits[0])
     && (if visits[0].end then |visits| == 1 else Paged(hash, Resume(start, visits[0].page), visits[1..])))
  }

  predicate Finished(visits: seq<Visit>) {
    |visits| > 0 && visits[|visits| - 1].end
  }

  function Seen(visits: seq<Visit>): seq<Name> {
    if visits == [] then [] else NamesOf(visits[0].page) + Seen(visits[1..])
  }

  /** No other entry has the cookie of `n`. */
  ghost predicate Unshared(hash: NameHash, dir: Dir, n: Name) {
    forall m :: m in dir && m != n ==> Cookie(hash, dir, m) != Cookie(hash, dir, n)
  }

  /** Present throughout, under one cookie that no other entry shares. */
  ghost predicate Steady(hash: NameHash, visits: seq<Visit>, n: Name, c: nat) {
    forall v :: v in visits ==> n in v.dir && Cookie(hash, v.dir, n) == c && Unshared(hash, v.dir, n)
  }

  lemma CookieOfBelow(hash: NameHash, dir: Dir, dir': Dir, n: Name)
    requires Below(hash, dir, n) == Below(hash, dir', n)
    ensures Cookie(hash, dir, n) == Cookie(hash, dir', n)
  {
  }

  /** Where a page starts and stops decides which rows are on it. */
  lemma RowOnPage(rows: seq<Row>, start: nat, page: seq<Row>, end: bool, p: nat)
    requires Reply(rows, start, page, end) && p < |rows|
    requires InOrder(rows)
    requires forall i :: 0 <= i < |rows| && i != p ==> rows[i].0 != rows[p].0
    ensures Skipped(rows, start) <= p < Skipped(rows, start) + |page| <==>
              start < rows[p].0 && (end || rows[p].0 <= Resume(start, page))
  {
    var skip, last := Skipped(rows, start), Skipped(rows, start) + |page| - 1;
    assert skip < p ==> NoLater(rows[skip], rows[p]);
    if page != [] {
      assert page[|page| - 1] == rows[last];
      assert p < last ==> NoLater(rows[p], rows[last]);
      assert last < p ==> NoLater(rows[last], rows[p]);
    }
  }

  lemma CountRow(rows: seq<Row>, dir: Dir, skip: nat, page: seq<Row>, p: nat)
    requires Covers(rows, dir) && skip <= |rows| && page <= rows[skip..] && p < |rows|
    ensures multiset(NamesOf(page))[rows[p].1] == if skip <= p < skip + |page| then 1 else 0
  {
    var names := NamesOf(page);
    assert forall i :: 0 <= i < |names| ==> names[i] == rows[skip + i].1;
    forall i | 0 <= i < |rows| && i != p ensures rows[i].1 != rows[p].1 {
      CoveredOnce(rows, dir, if i < p then i else p, if i < p then p else i);
    }
    if skip <= p < skip + |page| {
      assert names[p - skip] == rows[p].1;
      CountOnce(names, p - skip);
    } else {
      assert rows[p].1 !in names;
    }
  }

  /** A steady name is on a page exactly when its cookie is past the start and not past where
      the page stops. */
  lemma OnPage(hash: NameHash, start: nat, v: Visit, n: Name)
    requires Served(hash, start, v) && n in v.dir && Unshared(hash, v.dir, n)
    ensures var c := Cookie(hash, v.dir, n);
            multiset(NamesOf(v.page))[n] == if start < c && (v.end || c <= Resume(start, v.page)) then 1 else 0
  {
    var rows: seq<Row> :| Listing(hash, v.dir, rows) && Reply(rows, start, v.page, v.end);
    var p := CoveredAt(rows, v.dir, n);
    forall i | 0 <= i < |rows| && i != p ensures rows[i].0 != rows[p].0 {
      CoversOnly(rows, v.dir, i);
      CoveredOnce(rows, v.dir, if i < p then i else p, if i < p then p else i);
    }
    RowOnPage(rows, start, v.page, v.end, p);
    CountRow(rows, v.dir, Skipped(rows, start), v.page, p);
  }

  lemma CountOnce(s: seq<Name>, k: nat)
    requires k < |s| && forall i :: 0 <= i < |s| && i != k ==> s[i] != s[k]
    ensures multiset(s)[s[k]] == 1
  {
    assert s == s[..k] + [s[k]] + s[k + 1..];
    assert s[k] !in s[..k] && s[k] !in s[k + 1..];
  }

  /** How far a client gets. */
  function Final(start: nat, visits: seq<Visit>): nat
    decreases |visits|
  {
    if visits == [] then start else Final(Resume(start, visits[0].page), visits[1..])
  }

  lemma RowsRise(rows: seq<Row>, start: nat, page: seq<Row>)
    requires InOrder(rows) && page != [] && page <= rows[Skipped(rows, start)..]
    ensures start < Resume(start, page)
    ensures page[|page| - 1] in rows
  {
    var skip, last := Skipped(rows, start), Skipped(rows, start) + |page| - 1;
    assert page[|page| - 1] == rows[last];
    assert skip < last ==> NoLater(rows[skip], rows[last]);
  }

  lemma Rises(hash: NameHash, start: nat, v: Visit)
    requires Served(hash, start, v)
    ensures v.page != [] ==> start < Resume(start, v.page) < TOP
    ensures !v.end ==> start < Resume(start, v.page)
  {
    var rows: seq<Row> :| Listing(hash, v.dir, rows) && Reply(rows, start, v.page, v.end);
    if v.page != [] {
      RowsRise(rows, start, v.page);
      CookieRange(hash, v.dir, v.page[|v.page| - 1].1);
    }
  }

  lemma SeenSplit(visits: seq<Visit>, n: Name)
    requires visits != []
    ensures multiset(Seen(visits))[n] == multiset(NamesOf(visits[0].page))[n] + multiset(Seen(visits[1..]))[n]
  {
  }

  /** Page by page, what is known of one cookie `c` that does not change. */
  ghost predicate Tracked(start: nat, visits: seq<Visit>, n: Name, c: nat)
    decreases |visits|
  {
    visits == [] ||
    (var v, next := visits[0], Resume(start, visits[0].page);
     && multiset(NamesOf(v.page))[n] == (if start < c && (v.end || c <= next) then 1 else 0)
     && (if v.end then |visits| == 1 else start < next && Tracked(next, visits[1..], n, c)))
  }

  lemma {:induction false} SteadyTracked(hash: NameHash, start: nat, visits: seq<Visit>, n: Name, c: nat)
    requires Paged(hash, start, visits) && Steady(hash, visits, n, c)
    ensures Tracked(start, visits, n, c)
    decreases |visits|
  {
    if visits != [] {
      var v := visits[0];
      assert v in visits;
      OnPage(hash, start, v, n);
      Rises(hash, start, v);
      if !v.end {
        SteadyTracked(hash, Resume(start, v.page), visits[1..], n, c);
      }
    }
  }

  lemma {:induction false} FinalRises(start: nat, visits: seq<Visit>, n: Name, c: nat)
    requires Tracked(start, visits, n, c) && !Finished(visits)
    ensures start <= Final(start, visits)
    decreases |visits|
  {
    if visits != [] {
      FinalRises(Resume(start, visits[0].page), visits[1..], n, c);
    }
  }

  lemma {:induction false} SeenCount(start: nat, visits: seq<Visit>, n: Name, c: nat)
    requires Tracked(start, visits, n, c)
    ensures multiset(Seen(visits))[n] ==
              if start < c && (Finished(visits) || c <= Final(start, visits)) then 1 else 0
    decreases |visits|
  {
    if visits != [] {
      var next := Resume(start, visits[0].page);
      SeenSplit(visits, n);
      if visits[0].end {
        assert visits[1..] == [];
      } else {
        SeenCount(next, visits[1..], n, c);
        if !Finished(visits) {
          FinalRises(next, visits[1..], n, c);
        }
      }
    }
  }

  /** Whatever else comes and goes between pages, a client that reaches the end has seen every
      steady name exactly once, and one that has not yet has seen none twice. */
  lemma SteadySeenOnce(hash: NameHash, visits: seq<Visit>, n: Name, c: nat)
    requires Paged(hash, 0, visits) && Steady(hash, visits, n, c)
    ensures multiset(Seen(visits))[n] <= 1
    ensures Finished(visits) ==> multiset(Seen(visits))[n] == 1
  {
    if visits == [] {
      return;
    }
    assert visits[0] in visits;
    CookieRange(hash, visits[0].dir, n);
    SteadyTracked(hash, 0, visits, n, c);
    SeenCount(0, visits, n, c);
  }

  /** A name is steady when its group does not change and fits. */
  lemma SteadyByGroup(hash: NameHash, visits: seq<Visit>, n: Name, group: Dir)
    requires n in group && |group| <= Room(hash, n) && visits != []
    requires forall v :: v in visits ==> Group(hash, v.dir, n) == group
    ensures Steady(hash, visits, n, Cookie(hash, visits[0].dir, n))
  {
    forall v | v in visits ensures n in v.dir && Unshared(hash, v.dir, n)
        && Cookie(hash, v.dir, n) == Cookie(hash, visits[0].dir, n)
    {
      assert n in Group(hash, v.dir, n);
      CookieOfBelow(hash, v.dir, visits[0].dir, n) by {
        assert Below(hash, v.dir, n) == Below(hash, visits[0].dir, n);
      }
      forall m | m in v.dir && m != n ensures Cookie(hash, v.dir, m) != Cookie(hash, v.dir, n) {
        CookieUnique(hash, v.dir, n, m);
      }
    }
  }

  /** It is steady, too, when the names ranked before it in its group do not change and leave it
      a slot, whatever those ranked after it do. */
  lemma SteadyByRank(hash: NameHash, visits: seq<Visit>, n: Name, below: Dir)
    requires |below| + (if High(hash(n)) == 0 then 1 else 0) < 255 && visits != []
    requires forall v :: v in visits ==> n in v.dir && Below(hash, v.dir, n) == below
    ensures Steady(hash, visits, n, Cookie(hash, visits[0].dir, n))
  {
    forall v | v in visits ensures n in v.dir && Unshared(hash, v.dir, n)
        && Cookie(hash, v.dir, n) == Cookie(hash, visits[0].dir, n)
    {
      CookieOfBelow(hash, v.dir, visits[0].dir, n);
      forall m | m in v.dir && m != n ensures Cookie(hash, v.dir, m) != Cookie(hash, v.dir, n) {
        CookieOrder(hash, v.dir, n, m);
      }
    }
  }

  /** Paging ends: the cookie rises with every page that is not the last, and stays below
      2^63. */
  lemma {:induction false} PagingEnds(hash: NameHash, start: nat, visits: seq<Visit>)
    requires start < TOP && Paged(hash, start, visits)
    ensures |visits| + start <= TOP
    decreases |visits|
  {
    if visits != [] && !visits[0].end {
      Rises(hash, start, visits[0]);
      PagingEnds(hash, Resume(start, visits[0].page), visits[1..]);
    }
  }

  lemma MovedCookies(hash: NameHash, a: Name, b: Name)
    requires Less(a, b) && hash(a) == 256 && hash(b) == 256
    ensures a != b && Cookie(hash, {a, b}, a) == 256 && Cookie(hash, {a, b}, b) == 257 && Cookie(hash, {b}, b) == 256
  {
    LessTotal(a, b);
    LessTotal(b, b);
    assert Below(hash, {a, b}, a) == {} && Below(hash, {a, b}, b) == {a} && Below(hash, {b}, b) == {};
  }

  lemma CoversTwo(a: Name, b: Name, c: nat, d: nat)
    requires a != b
    ensures Covers([(c, a), (d, b)], {a, b})
  {
    assert NamesOf([(c, a), (d, b)]) == [a, b];
    assert multiset({a, b}) == multiset{a, b};
  }

  lemma CoversOne(b: Name, c: nat)
    ensures Covers([(c, b)], {b})
  {
    assert NamesOf([(c, b)]) == [b];
    assert multiset({b}) == multiset{b};
  }

  /** Two names with one hash, before and after the first is removed. */
  lemma Moved(hash: NameHash, a: Name, b: Name)
    requires Less(a, b) && hash(a) == 256 && hash(b) == 256
    ensures Listing(hash, {a, b}, [(256, a), (257, b)])
    ensures Listing(hash, {b}, [(256, b)])
  {
    MovedCookies(hash, a, b);
    CoversTwo(a, b, 256, 257);
    CoversOne(b, 256);
  }

  lemma MovedReplies(a: Name, b: Name)
    ensures Reply([(256, a), (257, b)], 0, [(256, a)], false)
    ensures Reply([(256, b)], 256, [], true)
  {
    var two, one: seq<Row> := [(256, a), (257, b)], [(256, b)];
    assert Skipped(two, 0) == 0 && two[0..] == two;
    assert Skipped(one[1..], 256) == 0 && Skipped(one, 256) == 1;
  }

  lemma PagedTwice(hash: NameHash, v: Visit, w: Visit)
    requires Served(hash, 0, v) && !v.end && Served(hash, Resume(0, v.page), w) && w.end
    ensures Paged(hash, 0, [v, w]) && Finished([v, w])
  {
    assert [v, w][1..] == [w];
  }

  lemma SeenTwice(v: Visit, w: Visit)
    ensures Seen([v, w]) == NamesOf(v.page) + NamesOf(w.page)
  {
    assert [v, w][1..] == [w] && [w][1..] == [];
    assert Seen([w]) == NamesOf(w.page) + [];
  }

  /** Why a group must fit: of two neighbours with one cookie, the second is not on the page
      after one that stopped at the first. */
  lemma TiesSkip(rows: seq<Row>, k: nat, c: nat)
    requires InOrder(rows) && k + 1 < |rows| && rows[k].0 == c && rows[k + 1].0 == c
    ensures k + 1 < Skipped(rows, c)
  {
    var next := Skipped(rows, c);
    assert next < k ==> NoLater(rows[next], rows[k]);
  }

  /** Why the group must not change: of two names with one hash, removing the first after it
      was listed moves the second back onto the cookie already passed, and it is never seen. */
  lemma ChangedGroupSkips(hash: NameHash, a: Name, b: Name)
    requires Less(a, b) && hash(a) == 256 && hash(b) == 256
    ensures var visits := [Visit({a, b}, [(256, a)], false), Visit({b}, [], true)];
            Paged(hash, 0, visits) && Finished(visits) && b !in Seen(visits)
  {
    Moved(hash, a, b);
    MovedReplies(a, b);
    LessTotal(a, b);
    var v, w := Visit({a, b}, [(256, a)], false), Visit({b}, [], true);
    assert Served(hash, 0, v) && Served(hash, 256, w);
    PagedTwice(hash, v, w);
    SeenTwice(v, w);
  }
}
