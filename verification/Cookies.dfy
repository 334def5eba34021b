/** Directory cookies: resumable positions that survive changes to the directory. */
module Cookies {
  import opened Core
  import opened Words
  import opened Digests
  import opened Canonical
  import opened Sorting

  type Name = Bytes
  type Dir = set<Name>

  /** Cookies are 63-bit. */
  const TOP: nat := 0x8000_0000_0000_0000

  type NameHash = f: Name -> nat | forall n :: f(n) < TOP
    ghost witness (n: Name) => 0

  /** The first eight bytes of the name's SHA-256, masked to 63 bits, zero avoided. */
  function NameCookie(h: Hash, name: Name): (c: nat)
    ensures 1 <= c < TOP
  {
    var c := FromBE(h(Sha256, name)[..8]) % TOP;
    if c == 0 then 1 else c
  }

  lemma TopBit(x: byte, rest: Bytes)
    requires |rest| == 7
    ensures FromBE([x] + rest) % TOP == FromBE([x % 128] + rest)
  {
    FromBEHead8(x, rest);
    FromBEHead8(x % 128, rest);
    ClearTop(x, FromBE(rest), FromBE([x] + rest), FromBE([x % 128] + rest));
  }

  lemma ClearTop(x: byte, n: nat, all: nat, low: nat)
    requires n < 0x100_0000_0000_0000
    requires all == x * 0x100_0000_0000_0000 + n && low == x % 128 * 0x100_0000_0000_0000 + n
    ensures all % TOP == low
  {
    assert all == if x < 128 then low else TOP + low;
  }

  /** As eight bytes, high byte first, the cookie is the start of the name's hash with its top
      bit cleared, and one when nothing else is set. */
  lemma NameCookieBytes(h: Hash, name: Name)
    ensures var b := [h(Sha256, name)[0] % 128] + h(Sha256, name)[1..8];
            BE(NameCookie(h, name), 8) == if b == [0, 0, 0, 0, 0, 0, 0, 0] then [0, 0, 0, 0, 0, 0, 0, 1] else b
  {
    var hash := h(Sha256, name);
    var b := [hash[0] % 128] + hash[1..8];
    assert hash[..8] == [hash[0]] + hash[1..8];
    TopBit(hash[0], hash[1..8]);
    BECanonical(b);
    var zeros, one: Bytes := [0, 0, 0, 0, 0, 0, 0, 0], [0, 0, 0, 0, 0, 0, 0, 1];
    SmallBE(0);
    SmallBE(1);
    assert FromBE(b) == 0 ==> b == zeros;
    if b == zeros {
      BERoundTrip(0, 8);
    }
  }

  lemma SmallBE(n: byte)
    ensures BE(n, 8) == [0, 0, 0, 0, 0, 0, 0, n]
  {
    assert BE(0, 1) == [0] && BE(0, 2) == [0, 0] && BE(0, 3) == [0, 0, 0] && BE(0, 4) == [0, 0, 0, 0];
    assert BE(0, 5) == [0, 0, 0, 0, 0] && BE(0, 6) == [0, 0, 0, 0, 0, 0] && BE(0, 7) == [0, 0, 0, 0, 0, 0, 0];
  }

  /** The hash a listing goes by. */
  function Hashing(h: Hash): NameHash {
    (n: Name) => NameCookie(h, n)
  }

  /** The hash without its low eight bits. */
  function High(c: nat): nat {
    c - c % 256
  }

  // ---- What an entry's cookie is ----

  function Group(hash: NameHash, dir: Dir, n: Name): Dir {
    set m | m in dir && High(hash(m)) == High(hash(n))
  }

  function Below(hash: NameHash, dir: Dir, n: Name): Dir {
    set m | m in Group(hash, dir, n) && Less(m, n)
  }

  /** The tie-break: the rank by name within the group, from 1 where 0 would be the start cookie. */
  function Slot(hash: NameHash, dir: Dir, n: Name): nat {
    |Below(hash, dir, n)| + if High(hash(n)) == 0 then 1 else 0
  }

  function Joined(high: nat, slot: nat): nat {
    high + if slot < 255 then slot else 255
  }

  function Cookie(hash: NameHash, dir: Dir, n: Name): nat {
    Joined(High(hash(n)), Slot(hash, dir, n))
  }

  lemma CookieRange(hash: NameHash, dir: Dir, n: Name)
    ensures 0 < Cookie(hash, dir, n) < TOP
  {
  }

  lemma ProperSubset<T>(a: set<T>, b: set<T>)
    requires a < b
    ensures |a| < |b|
  {
    var x :| x in b && x !in a;
    SubsetSize(a, b - {x});
  }

  lemma SlotRises(hash: NameHash, dir: Dir, n: Name, m: Name)
    requires n in dir && High(hash(n)) == High(hash(m)) && Less(n, m)
    ensures Slot(hash, dir, n) < Slot(hash, dir, m)
  {
    forall x | x in Below(hash, dir, n) ensures x in Below(hash, dir, m) {
      LessTransitive(x, n, m);
    }
    LessTotal(n, n);
    assert n in Below(hash, dir, m) && n !in Below(hash, dir, n);
    ProperSubset(Below(hash, dir, n), Below(hash, dir, m));
  }

  lemma JoinedOrder(c: nat, s: nat, d: nat, t: nat)
    ensures High(c) < High(d) ==> Joined(High(c), s) < Joined(High(d), t)
    ensures High(c) == High(d) && s < t ==> Joined(High(c), s) <= Joined(High(d), t)
    ensures High(c) == High(d) && s < t ==> (Joined(High(c), s) == Joined(High(d), t) <==> s >= 255)
  {
  }

  /** Cookies follow the order (high bits, name), and two entries share one exactly when they
      share the high bits and both ranks ran past the eight bits kept for them. */
  lemma CookieOrder(hash: NameHash, dir: Dir, n: Name, m: Name)
    requires n in dir && m in dir && n != m
    ensures Cookie(hash, dir, n) == Cookie(hash, dir, m) <==>
              High(hash(n)) == High(hash(m)) && Slot(hash, dir, n) >= 255 && Slot(hash, dir, m) >= 255
    ensures High(hash(n)) < High(hash(m)) ==> Cookie(hash, dir, n) < Cookie(hash, dir, m)
    ensures High(hash(n)) == High(hash(m)) && Less(n, m) ==> Cookie(hash, dir, n) <= Cookie(hash, dir, m)
  {
    LessTotal(n, m);
    var s, t := Slot(hash, dir, n), Slot(hash, dir, m);
    JoinedOrder(hash(n), s, hash(m), t);
    JoinedOrder(hash(m), t, hash(n), s);
    if High(hash(n)) == High(hash(m)) {
      if Less(n, m) {
        SlotRises(hash, dir, n, m);
      } else {
        SlotRises(hash, dir, m, n);
      }
    }
  }

  /** How many names of a group get a slot each. */
  function Room(hash: NameHash, n: Name): nat {
    if High(hash(n)) == 0 then 255 else 256
  }

  /** In a group that fits no other entry has the same cookie. */
  lemma CookieUnique(hash: NameHash, dir: Dir, n: Name, m: Name)
    requires n in dir && m in dir && n != m && |Group(hash, dir, n)| <= Room(hash, n)
    ensures Cookie(hash, dir, n) != Cookie(hash, dir, m)
  {
    CookieOrder(hash, dir, n, m);
    if High(hash(n)) == High(hash(m)) {
      assert Group(hash, dir, n) == Group(hash, dir, m);
      LessTotal(n, m);
      var first, last := if Less(n, m) then n else m, if Less(n, m) then m else n;
      SlotRises(hash, dir, first, last);
      LessTotal(last, last);
      assert last in Group(hash, dir, n) && last !in Below(hash, dir, last);
      ProperSubset(Below(hash, dir, last), Group(hash, dir, n));
    }
  }

  // ---- The listing ----

  type Row = (nat, Name)

  predicate RowLe(a: Row, b: Row) {
    High(a.0) < High(b.0) || (High(a.0) == High(b.0) && !Less(b.1, a.1))
  }

  lemma RowLePreorder()
    ensures Preorder(RowLe)
  {
    forall x: Row, y: Row ensures RowLe(x, y) || RowLe(y, x) {
      LessTotal(x.1, y.1);
    }
    forall x: Row, y: Row, z: Row | RowLe(x, y) && RowLe(y, z) ensures RowLe(x, z) {
      LessTotal(x.1, y.1);
      LessTotal(y.1, z.1);
      LessTotal(x.1, z.1);
      if Less(z.1, x.1) && y.1 != x.1 && y.1 != z.1 && Less(x.1, y.1) && Less(y.1, z.1) {
        LessTransitive(x.1, y.1, z.1);
      }
    }
  }

  function NamesOf(rows: seq<Row>): (names: seq<Name>)
    ensures |names| == |rows|
  {
    seq(|rows|, i requires 0 <= i < |rows| => rows[i].1)
  }

  /** Each name of the directory once. */
  ghost predicate Covers(rows: seq<Row>, dir: Dir) {
    multiset(NamesOf(rows)) == multiset(dir)
  }

  lemma CoveredAt(rows: seq<Row>, dir: Dir, n: Name) returns (i: nat)
    requires Covers(rows, dir) && n in dir
    ensures i < |rows| && rows[i].1 == n
  {
    assert n in multiset(dir);
    assert n in NamesOf(rows);
    i :| 0 <= i < |rows| && NamesOf(rows)[i] == n;
  }

  lemma CoversOnly(rows: seq<Row>, dir: Dir, i: nat)
    requires Covers(rows, dir) && i < |rows|
    ensures rows[i].1 in dir
  {
    assert NamesOf(rows)[i] in multiset(NamesOf(rows));
  }

  lemma CoveredOnce(rows: seq<Row>, dir: Dir, i: nat, j: nat)
    requires Covers(rows, dir) && i < j < |rows|
    ensures rows[i].1 != rows[j].1
  {
    var s := NamesOf(rows);
    assert s == s[..i] + [s[i]] + s[i + 1..j] + [s[j]] + s[j + 1..];
    assert multiset(s)[s[i]] <= 1;
  }

  lemma {:induction false} InsertNames(row: Row, rows: seq<Row>)
    ensures multiset(NamesOf(Insert(RowLe, row, rows))) == multiset{row.1} + multiset(NamesOf(rows))
  {
    if |rows| == 0 || RowLe(row, rows[0]) {
      assert NamesOf([row] + rows) == [row.1] + NamesOf(rows);
    } else {
      InsertNames(row, rows[1..]);
      var rest := Insert(RowLe, row, rows[1..]);
      assert NamesOf([rows[0]] + rest) == [rows[0].1] + NamesOf(rest);
      assert NamesOf(rows) == [rows[0].1] + NamesOf(rows[1..]);
    }
  }

  lemma {:induction false} SortNames(rows: seq<Row>)
    ensures multiset(NamesOf(Sort(RowLe, rows))) == multiset(NamesOf(rows))
  {
    if |rows| > 0 {
      SortNames(rows[1..]);
      InsertNames(rows[0], Sort(RowLe, rows[1..]));
      assert NamesOf(rows) == [rows[0].1] + NamesOf(rows[1..]);
    }
  }

  /** The names with their hashes, as the file system lists them. */
  ghost predicate Entries(hash: NameHash, dir: Dir, rows: seq<Row>) {
    Covers(rows, dir) && forall i :: 0 <= i < |rows| ==> rows[i].0 == hash(rows[i].1)
  }

  /** The same in the order (high bits, name). */
  ghost predicate Ordered(hash: NameHash, dir: Dir, rows: seq<Row>) {
    Entries(hash, dir, rows) && forall i, j {:trigger RowLe(rows[i], rows[j])} :: 0 <= i < j < |rows| ==> RowLe(rows[i], rows[j])
  }

  lemma SortedEntries(hash: NameHash, dir: Dir, found: seq<Row>)
    requires Entries(hash, dir, found)
    ensures Ordered(hash, dir, Sort(RowLe, found))
  {
    var rows := Sort(RowLe, found);
    RowLePreorder();
    SortSorts(RowLe, found);
    SortNames(found);
    forall i | 0 <= i < |rows| ensures rows[i] in found {
      assert rows[i] in multiset(rows);
    }
    forall i, j | 0 <= i < j < |rows| ensures RowLe(rows[i], rows[j]) {
      SortedAt(RowLe, rows, i, j);
    }
  }

  predicate NoLater(a: Row, b: Row) {
    a.0 <= b.0
  }

  ghost predicate InOrder(rows: seq<Row>) {
    forall i, j {:trigger NoLater(rows[i], rows[j])} :: 0 <= i < j < |rows| ==> NoLater(rows[i], rows[j])
  }

  /** The names with their cookies, in cookie order. */
  ghost predicate Listing(hash: NameHash, dir: Dir, rows: seq<Row>) {
    && Covers(rows, dir)
    && (forall i :: 0 <= i < |rows| ==> rows[i].0 == Cookie(hash, dir, rows[i].1))
    && InOrder(rows)
  }

  /** Whatever is below a row is its predecessor or below that, in the same group. */
  lemma BelowPredecessor(hash: NameHash, dir: Dir, rows: seq<Row>, i: nat, m: Name)
    requires Ordered(hash, dir, rows) && i < |rows| && m in Below(hash, dir, rows[i].1)
    ensures i > 0 && High(rows[i - 1].0) == High(rows[i].0)
    ensures m == rows[i - 1].1 || m in Below(hash, dir, rows[i - 1].1)
  {
    var k := CoveredAt(rows, dir, m);
    LessTotal(m, rows[i].1);
    assert i < k ==> RowLe(rows[i], rows[k]);
    if k < i - 1 {
      CoveredOnce(rows, dir, k, i - 1);
      LessTotal(m, rows[i - 1].1);
      assert RowLe(rows[k], rows[i - 1]) && RowLe(rows[i - 1], rows[i]);
    }
  }

  /** The rank of a row is one more than its predecessor's within a group, else zero. */
  lemma RankStep(hash: NameHash, dir: Dir, rows: seq<Row>, i: nat)
    requires Ordered(hash, dir, rows) && i < |rows|
    ensures |Below(hash, dir, rows[i].1)| ==
              if i > 0 && High(rows[i - 1].0) == High(rows[i].0) then |Below(hash, dir, rows[i - 1].1)| + 1 else 0
  {
    var n := rows[i].1;
    forall m | m in Below(hash, dir, n)
      ensures i > 0 && High(rows[i - 1].0) == High(rows[i].0)
      ensures m == rows[i - 1].1 || m in Below(hash, dir, rows[i - 1].1)
    {
      BelowPredecessor(hash, dir, rows, i, m);
    }
    if i > 0 && High(rows[i - 1].0) == High(rows[i].0) {
      var p := rows[i - 1].1;
      CoversOnly(rows, dir, i - 1);
      CoveredOnce(rows, dir, i - 1, i);
      assert RowLe(rows[i - 1], rows[i]);
      LessTotal(p, n);
      LessTotal(p, p);
      forall m | m in Below(hash, dir, p) ensures m in Below(hash, dir, n) {
        LessTransitive(m, p, n);
      }
      assert Below(hash, dir, n) == Below(hash, dir, p) + {p};
    } else {
      assert Below(hash, dir, n) == {};
    }
  }

  lemma ListingOrder(hash: NameHash, dir: Dir, rows: seq<Row>, i: nat, j: nat)
    requires Ordered(hash, dir, rows) && i < j < |rows|
    ensures Cookie(hash, dir, rows[i].1) <= Cookie(hash, dir, rows[j].1)
  {
    assert RowLe(rows[i], rows[j]);
    CoversOnly(rows, dir, i);
    CoversOnly(rows, dir, j);
    CoveredOnce(rows, dir, i, j);
    CookieOrder(hash, dir, rows[i].1, rows[j].1);
    LessTotal(rows[i].1, rows[j].1);
  }

  /** The loop's variables hold the rank and high bits of the row just done. */
  ghost predicate RankAt(hash: NameHash, dir: Dir, rows: seq<Row>, i: nat, prev: Option<nat>, rank: nat)
    requires i <= |rows|
  {
    if i == 0 then prev == None else prev == Some(High(rows[i - 1].0)) && rank == |Below(hash, dir, rows[i - 1].1)|
  }

  function NextRank(prev: Option<nat>, rank: nat, high: nat): nat {
    if prev == Some(high) then rank + 1 else 0
  }

  function WithSlot(high: nat, rank: nat): nat {
    Joined(high, if high == 0 then rank + 1 else rank)
  }

  lemma RankMoves(hash: NameHash, dir: Dir, rows: seq<Row>, i: nat, prev: Option<nat>, rank: nat)
    requires Ordered(hash, dir, rows) && i < |rows| && RankAt(hash, dir, rows, i, prev, rank)
    ensures var high := High(rows[i].0); var rank' := NextRank(prev, rank, high);
            && RankAt(hash, dir, rows, i + 1, Some(high), rank')
            && WithSlot(high, rank') == Cookie(hash, dir, rows[i].1)
  {
    RankStep(hash, dir, rows, i);
  }

  /** The rows with the first `i` hashes rewritten. */
  ghost function Rewritten(hash: NameHash, dir: Dir, rows: seq<Row>, i: nat): (v: seq<Row>)
    ensures |v| == |rows|
  {
    seq(|rows|, k requires 0 <= k < |rows| =>
      if k < i then (Cookie(hash, dir, rows[k].1), rows[k].1) else rows[k])
  }

  lemma RewriteOne(hash: NameHash, dir: Dir, rows: seq<Row>, i: nat)
    requires i < |rows|
    ensures Rewritten(hash, dir, rows, i)[i] == rows[i]
    ensures Rewritten(hash, dir, rows, i + 1)
            == Rewritten(hash, dir, rows, i)[i := (Cookie(hash, dir, rows[i].1), rows[i].1)]
  {
  }

  lemma RewrittenLists(hash: NameHash, dir: Dir, rows: seq<Row>)
    requires Ordered(hash, dir, rows)
    ensures Listing(hash, dir, Rewritten(hash, dir, rows, |rows|))
  {
    var v := Rewritten(hash, dir, rows, |rows|);
    assert NamesOf(v) == NamesOf(rows);
    forall i, j | 0 <= i < j < |v| ensures NoLater(v[i], v[j]) {
      ListingOrder(hash, dir, rows, i, j);
    }
  }

  /** Sort by (high bits, name), then rewrite each row's hash as its cookie. */
  method AssignCookies(ghost hash: NameHash, ghost dir: Dir, found: seq<Row>) returns (v: seq<Row>)
    requires Entries(hash, dir, found)
    ensures Listing(hash, dir, v)
  {
    v := Sort(RowLe, found);
    SortedEntries(hash, dir, found);
    ghost var rows := v;
    assert Rewritten(hash, dir, rows, 0) == rows;
    var rank, prev := 0, None;
    for i := 0 to |v|
      invariant |v| == |rows| && RankAt(hash, dir, rows, i, prev, rank)
      invariant v == Rewritten(hash, dir, rows, i)
    {
      RewriteOne(hash, dir, rows, i);
      RankMoves(hash, dir, rows, i, prev, rank);
      var high := High(v[i].0);
      rank := NextRank(prev, rank, high);
      prev := Some(high);
      v := v[i := (WithSlot(high, rank), v[i].1)];
    }
    RewrittenLists(hash, dir, rows);
  }
}
