/** Sorted maps and their wire form: the entries of a `BTreeMap`, in key order, each a
    length-delimited key and a payload. Shared by action results and trees. */
module Listings {
  import opened Core
  import opened Canonical

  // ---- Key order ----

  predicate Ascending<T>(es: seq<(Path, T)>) {
    forall i, j | 0 <= i < j < |es| :: Less(es[i].0, es[j].0)
  }

  function ToMap<T>(es: seq<(Path, T)>): map<Path, T> {
    if |es| == 0 then map[]
    else ToMap(es[..|es| - 1])[es[|es| - 1].0 := es[|es| - 1].1]
  }

  lemma {:induction false} LeastExists(s: set<Path>) returns (k: Path)
    requires s != {}
    ensures k in s && forall j :: j in s && j != k ==> Less(k, j)
  {
    var one :| one in s;
    var t := s - {one};
    assert s == t + {one};
    k := one;
    if t != {} {
      var m := LeastExists(t);
      LessTotal(one, m);
      if Less(one, m) {
        forall j | j in t && j != m ensures Less(one, j) {
          LessTransitive(one, m, j);
        }
      } else {
        k := m;
      }
    }
  }

  /** The least key of a set. */
  function Least(s: set<Path>): (k: Path)
    requires s != {}
    ensures k in s && forall j :: j in s && j != k ==> Less(k, j)
  {
    assert exists k :: k in s && forall j :: j in s && j != k ==> Less(k, j) by {
      var k := LeastExists(s);
    }
    assert forall a, b :: a in s && b in s ==> !(Less(a, b) && Less(b, a)) by {
      forall a, b | a in s && b in s ensures !(Less(a, b) && Less(b, a)) {
        LessTotal(a, b);
      }
    }
    var k :| k in s && forall j :: j in s && j != k ==> Less(k, j);
    k
  }

  /** The entries of a map in key order. */
  function Entries<T>(m: map<Path, T>): (es: seq<(Path, T)>)
    ensures |es| == |m|
    decreases |m|
  {
    if m == map[] then []
    else
      var k := Least(m.Keys);
      assert (m - {k}).Keys == m.Keys - {k};
      [(k, m[k])] + Entries(m - {k})
  }

  /** Every entry of the map, and nothing else. */
  lemma {:induction false} EntriesContents<T(!new)>(m: map<Path, T>, e: (Path, T))
    ensures e in Entries(m) <==> e.0 in m && m[e.0] == e.1
    decreases |m|
  {
    if m != map[] {
      var k := Least(m.Keys);
      assert (m - {k}).Keys == m.Keys - {k};
      EntriesContents(m - {k}, e);
    }
  }

  lemma AscendingCons<T(!new)>(e: (Path, T), tail: seq<(Path, T)>)
    requires Ascending(tail) && forall x :: x in tail ==> Less(e.0, x.0)
    ensures Ascending([e] + tail)
  {
    var es := [e] + tail;
    forall i, j | 0 <= i < j < |es| ensures Less(es[i].0, es[j].0) {
      if i == 0 {
        assert es[j] in tail;
      } else {
        assert Less(tail[i - 1].0, tail[j - 1].0);
      }
    }
  }

  lemma {:induction false} EntriesAscending<T(!new)>(m: map<Path, T>)
    ensures Ascending(Entries(m))
    decreases |m|
  {
    if m != map[] {
      var k := Least(m.Keys);
      assert (m - {k}).Keys == m.Keys - {k};
      EntriesAscending(m - {k});
      forall e | e in Entries(m - {k}) ensures Less(k, e.0) {
        EntriesContents(m - {k}, e);
      }
      AscendingCons((k, m[k]), Entries(m - {k}));
    }
  }

  /** Listing a map and rebuilding it changes nothing. */
  lemma {:induction false} ToMapContents<T(!new)>(es: seq<(Path, T)>, k: Path, n: T)
    requires Ascending(es)
    ensures (k in ToMap(es) && ToMap(es)[k] == n) <==> (k, n) in es
    ensures |ToMap(es)| == |es|
  {
    if |es| > 0 {
      var front, last := es[..|es| - 1], es[|es| - 1];
      ToMapContents(front, k, n);
      assert es == front + [last];
      if last.0 in ToMap(front) {
        ToMapContents(front, last.0, ToMap(front)[last.0]);
        assert (last.0, ToMap(front)[last.0]) in front;
        LessTotal(last.0, last.0);
        assert false;
      }
      if k == last.0 {
        LessTotal(k, k);
        assert forall i :: 0 <= i < |front| ==> front[i] == es[i] && Less(front[i].0, last.0);
      }
    }
  }

  lemma ListedMap<T(!new)>(m: map<Path, T>)
    ensures ToMap(Entries(m)) == m
  {
    var es := Entries(m);
    var back := ToMap(es);
    EntriesAscending(m);
    forall k | k in m ensures k in back && back[k] == m[k] {
      EntriesContents(m, (k, m[k]));
      ToMapContents(es, k, m[k]);
    }
    forall k | k in back ensures k in m {
      EntriesContents(m, (k, back[k]));
      ToMapContents(es, k, back[k]);
    }
  }

  /** Two ascending listings of the same entries are the same listing. */
  lemma {:induction false} AscendingUnique<T(!new)>(a: seq<(Path, T)>, b: seq<(Path, T)>)
    requires Ascending(a) && Ascending(b) && |a| == |b|
    requires forall e: (Path, T) :: e in a <==> e in b
    ensures a == b
  {
    if |a| > 0 {
      FirstEqual(a, b);
      forall e: (Path, T) ensures e in a[1..] <==> e in b[1..] {
        TailWithout(a, e);
        TailWithout(b, e);
      }
      AscendingUnique(a[1..], b[1..]);
      assert a == [a[0]] + a[1..] && b == [b[0]] + b[1..];
    }
  }

  lemma FirstEqual<T(!new)>(a: seq<(Path, T)>, b: seq<(Path, T)>)
    requires |a| > 0 && |b| > 0 && Ascending(a) && Ascending(b)
    requires forall e: (Path, T) :: e in a <==> e in b
    ensures a[0] == b[0]
  {
    assert a[0] in b && b[0] in a;
    LessTotal(a[0].0, b[0].0);
  }

  lemma TailWithout<T(!new)>(a: seq<(Path, T)>, e: (Path, T))
    requires |a| > 0 && Ascending(a)
    ensures e in a[1..] <==> e in a && e != a[0]
  {
    LessTotal(a[0].0, a[0].0);
    assert a == [a[0]] + a[1..];
    assert forall i :: 0 <= i < |a[1..]| ==> a[1..][i] == a[i + 1];
  }

  lemma SameEntries<T(!new)>(es: seq<(Path, T)>, e: (Path, T))
    requires Ascending(es)
    ensures e in Entries(ToMap(es)) <==> e in es
    ensures |Entries(ToMap(es))| == |es|
  {
    var (k, n) := e;
    ToMapContents(es, k, n);
    EntriesContents(ToMap(es), e);
  }

  lemma MappedListing<T(!new)>(es: seq<(Path, T)>)
    requires Ascending(es)
    ensures Entries(ToMap(es)) == es
  {
    if |es| > 0 {
      var m := ToMap(es);
      EntriesAscending(m);
      SameEntries(es, es[0]);
      forall e: (Path, T) ensures e in Entries(m) <==> e in es {
        SameEntries(es, e);
      }
      AscendingUnique(Entries(m), es);
    }
  }

  // ---- Wire form ----

  /** A key is in place when it comes after the one before it. */
  predicate After(prev: Option<Path>, k: Path) {
    prev.Some? ==> Less(prev.value, k)
  }

  function WriteRows<T>(row: Codec<(Path, T)>, es: seq<(Path, T)>): Bytes {
    if |es| == 0 then [] else row.write(es[0]) + WriteRows(row, es[1..])
  }

  /** `n` rows, each after the one before it. */
  function ReadRows<T>(row: Codec<(Path, T)>, n: nat, prev: Option<Path>, b: Bytes): Read<seq<(Path, T)>> {
    if n == 0 then Got([], b)
    else
      match row.read(b)
      case Bad => Bad
      case Got(e, rest) =>
        if !After(prev, e.0) then Bad
        else
          match ReadRows(row, n - 1, Some(e.0), rest)
          case Bad => Bad
          case Got(es, rest) => Got([e] + es, rest)
  }

  predicate InPlace<T>(row: Codec<(Path, T)>, prev: Option<Path>, es: seq<(Path, T)>) {
    && Ascending(es)
    && (forall i :: 0 <= i < |es| ==> row.ok(es[i]))
    && (|es| > 0 ==> After(prev, es[0].0))
  }

  lemma InPlaceStep<T(!new)>(row: Codec<(Path, T)>, prev: Option<Path>, e: (Path, T), tail: seq<(Path, T)>)
    ensures InPlace(row, prev, [e] + tail)
            <==> After(prev, e.0) && row.ok(e) && InPlace(row, Some(e.0), tail)
  {
    var es := [e] + tail;
    assert forall i :: 0 <= i < |tail| ==> tail[i] == es[i + 1];
    if InPlace(row, prev, es) {
      assert |tail| > 0 ==> Less(es[0].0, es[1].0);
      assert row.ok(es[0]);
    }
    if After(prev, e.0) && row.ok(e) && InPlace(row, Some(e.0), tail) {
      forall i, j | 0 <= i < j < |es| ensures Less(es[i].0, es[j].0) {
        if i > 0 {
          assert Less(tail[i - 1].0, tail[j - 1].0);
        } else if j > 1 {
          assert Less(tail[0].0, tail[j - 1].0);
          LessTransitive(e.0, tail[0].0, tail[j - 1].0);
        }
      }
    }
  }

  lemma WriteCons<T>(row: Codec<(Path, T)>, e: (Path, T), es: seq<(Path, T)>, rest: Bytes)
    ensures WriteRows(row, [e] + es) + rest == row.write(e) + (WriteRows(row, es) + rest)
  {
    assert ([e] + es)[1..] == es;
  }

  lemma {:induction false} RowsParse<T(!new)>(row: Codec<(Path, T)>, prev: Option<Path>, es: seq<(Path, T)>, rest: Bytes)
    requires Exact(row) && InPlace(row, prev, es)
    ensures ReadRows(row, |es|, prev, WriteRows(row, es) + rest) == Got(es, rest)
    decreases |es|
  {
    if |es| == 0 {
      assert WriteRows(row, es) + rest == rest;
    } else {
      var tail := es[1..];
      assert es == [es[0]] + tail;
      InPlaceStep(row, prev, es[0], tail);
      WriteCons(row, es[0], tail, rest);
      assert row.read(row.write(es[0]) + (WriteRows(row, tail) + rest)) == Got(es[0], WriteRows(row, tail) + rest);
      RowsParse(row, Some(es[0].0), tail, rest);
    }
  }

  lemma {:induction false} RowsWritten<T(!new)>(row: Codec<(Path, T)>, n: nat, prev: Option<Path>, b: Bytes)
    requires Exact(row) && ReadRows(row, n, prev, b).Got?
    ensures var r := ReadRows(row, n, prev, b);
            && |r.value| == n && InPlace(row, prev, r.value)
            && b == WriteRows(row, r.value) + r.rest
    decreases n
  {
    if n > 0 {
      var e := row.read(b);
      assert row.ok(e.value) && b == row.write(e.value) + e.rest;
      RowsWritten(row, n - 1, Some(e.value.0), e.rest);
      var r := ReadRows(row, n - 1, Some(e.value.0), e.rest);
      InPlaceStep(row, prev, e.value, r.value);
      WriteCons(row, e.value, r.value, r.rest);
    }
  }

  /** A count, then that many rows in key order. */
  function Rows<T>(count: Codec<nat>, row: Codec<(Path, T)>): Codec<seq<(Path, T)>> {
    Codec((es: seq<(Path, T)>) => count.ok(|es|) && InPlace(row, None, es),
          (es: seq<(Path, T)>) => count.write(|es|) + WriteRows(row, es),
          (b: Bytes) =>
            match count.read(b)
            case Bad => Bad
            case Got(n, rest) => ReadRows(row, n, None, rest))
  }

  lemma RowsExact<T(!new)>(count: Codec<nat>, row: Codec<(Path, T)>)
    requires Exact(count) && Exact(row)
    ensures Exact(Rows(count, row))
  {
    var c := Rows(count, row);
    forall b, es, rest ensures c.read(b) == Got(es, rest) <==> c.ok(es) && b == c.write(es) + rest {
      var body := WriteRows(row, es) + rest;
      assert c.write(es) + rest == count.write(|es|) + body;
      if c.ok(es) {
        RowsParse(row, None, es, rest);
        assert count.read(count.write(|es|) + body) == Got(|es|, body);
      }
      match count.read(b)
      case Bad =>
      case Got(n, mid) =>
        assert b == count.write(n) + mid && count.ok(n);
        if ReadRows(row, n, None, mid).Got? {
          RowsWritten(row, n, None, mid);
        }
    }
  }

  function Rebuild<T>(es: seq<(Path, T)>): Option<map<Path, T>> {
    Some(ToMap(es))
  }

  predicate Listable<T>(count: Codec<nat>, row: Codec<(Path, T)>, m: map<Path, T>) {
    count.ok(|m|) && forall k :: k in m ==> row.ok((k, m[k]))
  }

  /** A sorted map is its rows in key order. */
  function Listing<T(!new)>(count: Codec<nat>, row: Codec<(Path, T)>): Codec<map<Path, T>> {
    Narrow(Rows(count, row), (m: map<Path, T>) => Listable(count, row, m), Entries, Rebuild)
  }

  lemma EntriesInPlace<T(!new)>(count: Codec<nat>, row: Codec<(Path, T)>, m: map<Path, T>)
    requires Listable(count, row, m)
    ensures InPlace(row, None, Entries(m))
  {
    var es := Entries(m);
    EntriesAscending(m);
    forall i | 0 <= i < |es| ensures row.ok(es[i]) {
      EntriesContents(m, es[i]);
    }
  }

  lemma RowsListable<T(!new)>(count: Codec<nat>, row: Codec<(Path, T)>, es: seq<(Path, T)>)
    requires count.ok(|es|) && InPlace(row, None, es)
    ensures Listable(count, row, ToMap(es)) && Entries(ToMap(es)) == es
  {
    MappedListing(es);
    var m := ToMap(es);
    forall k | k in m ensures row.ok((k, m[k])) {
      EntriesContents(m, (k, m[k]));
      assert (k, m[k]) in es;
    }
  }

  /** What parses as a listing is exactly what is written: every row, in order, none twice. */
  lemma ListingExact<T(!new)>(count: Codec<nat>, row: Codec<(Path, T)>)
    requires Exact(count) && Exact(row)
    ensures Exact(Listing(count, row))
  {
    RowsExact(count, row);
    var ok := (m: map<Path, T>) => Listable(count, row, m);
    forall m: map<Path, T> | ok(m) ensures InPlace(row, None, Entries(m)) && Rebuild(Entries(m)) == Some(m) {
      EntriesInPlace(count, row, m);
      ListedMap(m);
    }
    forall es: seq<(Path, T)> | Rows(count, row).ok(es) ensures ok(ToMap(es)) && Entries(ToMap(es)) == es {
      RowsListable(count, row, es);
    }
    NarrowExact(Rows(count, row), ok, Entries, Rebuild);
  }
}
