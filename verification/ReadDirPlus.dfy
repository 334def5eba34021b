/** The READDIRPLUS reply (section 3.3.17 of RFC 1813): entries of one page, as many as the
    client's two byte limits allow. */
module ReadDirPlus {
  import opened Core
  import opened Words
  import opened Cookies
  import opened Paging
  import opened Xdr
  import opened Wire

  /** The serialised size of an entry. */
  type Sizes = Row -> nat

  /** `bytes` bounds the whole reply, `dir` the ids, names and cookies in it. */
  datatype Limits = Limits(bytes: nat, dir: nat)

  /** What is written so far, in both counts. */
  datatype Counts = Counts(bytes: nat, dir: nat)

  /** 128 bytes are held back from the client's limit; below 128 the subtraction wraps. */
  function LimitsOf(maxcount: nat, dircount: nat): Limits {
    Limits(if maxcount >= 128 then maxcount - 128 else maxcount + U64_MAX + 1 - 128, dircount)
  }

  /** That is, 128 less than the client's limit, modulo 2^64. */
  lemma LimitWraps(maxcount: nat, dircount: nat)
    requires maxcount <= U64_MAX
    ensures LimitsOf(maxcount, dircount) == Limits((maxcount + (U64_MAX + 1) - 128) % (U64_MAX + 1), dircount)
  {
    var all := U64_MAX + 1;
    if maxcount >= 128 {
      assert maxcount + all - 128 == all + (maxcount - 128);
      assert (all + (maxcount - 128)) % all == maxcount - 128;
    }
  }

  function DirSize(r: Row): nat {
    8 + 4 + |r.1| + 8
  }

  function Add(size: Sizes, c: Counts, r: Row): Counts {
    Counts(c.bytes + size(r), c.dir + DirSize(r))
  }

  predicate Within(l: Limits, c: Counts) {
    c.bytes < l.bytes && c.dir < l.dir
  }

  function Total(size: Sizes, c: Counts, rows: seq<Row>): Counts {
    if |rows| == 0 then c else Add(size, Total(size, c, rows[..|rows| - 1]), rows[|rows| - 1])
  }

  lemma TotalNext(size: Sizes, c: Counts, page: seq<Row>, k: nat)
    requires k < |page|
    ensures Total(size, c, page[..k + 1]) == Add(size, Total(size, c, page[..k]), page[k])
  {
    assert page[..k + 1][..k] == page[..k];
  }

  /** `out` is the longest prefix of the page whose every entry fits, and the end is claimed
      exactly when nothing was cut off here or on the page. */
  ghost predicate Cut(size: Sizes, l: Limits, header: nat, page: seq<Row>, end: bool, out: seq<Row>, eof: bool) {
    && out <= page
    && (forall k :: 0 < k <= |out| ==> Within(l, Total(size, Counts(header, 0), page[..k])))
    && (|out| < |page| ==> !Within(l, Total(size, Counts(header, 0), page[..|out| + 1])))
    && (eof <==> out == page && end)
  }

  method WritePage(size: Sizes, l: Limits, header: nat, page: seq<Row>, end: bool) returns (out: seq<Row>, eof: bool)
    ensures Cut(size, l, header, page, end, out, eof)
  {
    var counts := Counts(header, 0);
    var all := true;
    out := [];
    var i := 0;
    while i < |page|
      invariant 0 <= i <= |page| && out == page[..i]
      invariant counts == Total(size, Counts(header, 0), page[..i])
      invariant forall k :: 0 < k <= i ==> Within(l, Total(size, Counts(header, 0), page[..k]))
    {
      TotalNext(size, Counts(header, 0), page, i);
      var added := Add(size, counts, page[i]);
      if !Within(l, added) {
        all := false;
        break;
      }
      out := out + [page[i]];
      counts := added;
      i := i + 1;
    }
    eof := all && end;
  }

  // ---- Entries on the wire ----

  /** Opaque data of `n` bytes behind its length. */
  function OpaqueBytes(n: nat): nat {
    4 + n + Pad(n)
  }

  const ATTRIBUTES: nat := 84

  /** The flag that an entry follows, its id, name and cookie, its attributes and its handle of
      `handle` bytes, the last two each behind a flag. */
  function EntrySizes(handle: nat): Sizes {
    (r: Row) => 4 + 8 + OpaqueBytes(|r.1|) + 8 + (4 + ATTRIBUTES) + (4 + OpaqueBytes(handle))
  }

  /** Such an entry on the wire. */
  function EntryBytes(id: nat, attributes: Bytes, handle: Bytes, r: Row): Bytes
    requires |attributes| == ATTRIBUTES && |handle| < 0xFFFF_FFFF && |r.1| < 0xFFFF_FFFF
  {
    W(1) + BE(id, 8) + Sized(r.1) + BE(r.0, 8) + (W(1) + attributes) + (W(1) + Sized(handle))
  }

  /** The size counted for an entry is its length on the wire. */
  lemma EntryLength(id: nat, attributes: Bytes, handle: Bytes, r: Row)
    requires |attributes| == ATTRIBUTES && |handle| < 0xFFFF_FFFF && |r.1| < 0xFFFF_FFFF
    ensures |EntryBytes(id, attributes, handle, r)| == EntrySizes(|handle|)(r)
  {
    assert |Sized(r.1)| == OpaqueBytes(|r.1|) && |Sized(handle)| == OpaqueBytes(|handle|);
  }

  /** The directory count is every id, name length, name and cookie. */
  lemma {:induction false} TotalDir(size: Sizes, c: Counts, rows: seq<Row>)
    ensures Total(size, c, rows).dir == c.dir + 20 * |rows| + |Flat(NamesOf(rows))|
  {
    if |rows| > 0 {
      var front, last := rows[..|rows| - 1], rows[|rows| - 1];
      TotalDir(size, c, front);
      assert NamesOf(rows) == NamesOf(front) + [last.1];
      FlatSnoc(NamesOf(front), last.1);
    }
  }

  lemma {:induction false} TotalGrows(size: Sizes, c: Counts, rows: seq<Row>)
    requires |rows| > 0
    ensures c.bytes + size(rows[0]) <= Total(size, c, rows).bytes
  {
    var front := rows[..|rows| - 1];
    if |rows| == 1 {
      assert front == [];
    } else {
      TotalGrows(size, c, front);
    }
  }

  /** A reply with entries stays under the client's directory limit, and, with its two closing
      words, under its byte limit exactly when that is at least 128: below, the limit wraps, and
      one entry alone passes it. */
  lemma ReplyFits(handle: nat, maxcount: nat, dircount: nat, header: nat, page: seq<Row>, end: bool, out: seq<Row>, eof: bool)
    requires Cut(EntrySizes(handle), LimitsOf(maxcount, dircount), header, page, end, out, eof) && out != []
    ensures 20 * |out| + |Flat(NamesOf(out))| < dircount
    ensures Total(EntrySizes(handle), Counts(header, 0), out).bytes + 8 < maxcount <==> maxcount >= 128
  {
    assert page[..|out|] == out;
    TotalDir(EntrySizes(handle), Counts(header, 0), out);
    TotalGrows(EntrySizes(handle), Counts(header, 0), out);
  }

  /** Below 128 any entry that a 64-bit count can hold is let through, and the reply passes the
      client's limit. */
  lemma SmallLimitPassed(handle: nat, maxcount: nat, dircount: nat, header: nat, row: Row, end: bool, out: seq<Row>, eof: bool)
    requires Cut(EntrySizes(handle), LimitsOf(maxcount, dircount), header, [row], end, out, eof)
    requires maxcount < 128 && header + EntrySizes(handle)(row) < U64_MAX - 128 && DirSize(row) < dircount
    ensures out == [row] && Total(EntrySizes(handle), Counts(header, 0), out).bytes + 8 >= maxcount
  {
    assert [row][..1] == [row] && [row][..0] == [];
    TotalNext(EntrySizes(handle), Counts(header, 0), [row], 0);
  }

  /** The first entry past the cookie fits an otherwise empty reply. */
  predicate FirstFits(size: Sizes, l: Limits, header: nat, rows: seq<Row>, start: nat) {
    Skipped(rows, start) < |rows| && Within(l, Add(size, Counts(header, 0), rows[Skipped(rows, start)]))
  }

  /** A reply is a prefix of what follows the client's cookie, and claims the end only when it
      is all of that. It lets the client move on, and so pages as `Paging` requires, exactly
      when nothing is left or the client asked for at least one entry and the first one
      fits. */
  lemma RepliesPage(size: Sizes, maxcount: nat, dircount: nat, header: nat, rows: seq<Row>, start: nat,
                    out: seq<Row>, eof: bool)
    requires var (page, end) := PageOf(rows, start, dircount / 16);
             Cut(size, LimitsOf(maxcount, dircount), header, page, end, out, eof)
    ensures out <= rows[Skipped(rows, start)..]
    ensures eof ==> out == rows[Skipped(rows, start)..]
    ensures Reply(rows, start, out, eof) <==>
              Skipped(rows, start) == |rows| ||
              (dircount >= 16 && FirstFits(size, LimitsOf(maxcount, dircount), header, rows, start))
  {
    var l, rest := LimitsOf(maxcount, dircount), rows[Skipped(rows, start)..];
    var page := PageOf(rows, start, dircount / 16).0;
    if |page| > 0 {
      TotalNext(size, Counts(header, 0), page, 0);
      assert page[..0] == [] && page[0] == rest[0] == rows[Skipped(rows, start)];
      assert Within(l, Total(size, Counts(header, 0), page[..1])) <==> FirstFits(size, l, header, rows, start);
    }
  }

  /** A client that asks for fewer than 16 directory bytes while entries remain gets an empty
      reply that does not claim the end, and would ask the same again. */
  lemma SmallRequestStalls(size: Sizes, maxcount: nat, dircount: nat, header: nat, rows: seq<Row>, start: nat,
                           out: seq<Row>, eof: bool)
    requires var (page, end) := PageOf(rows, start, dircount / 16);
             Cut(size, LimitsOf(maxcount, dircount), header, page, end, out, eof)
    requires dircount < 16 && Skipped(rows, start) < |rows|
    ensures out == [] && !eof && Resume(start, out) == start && !Reply(rows, start, out, eof)
  {
  }
}
