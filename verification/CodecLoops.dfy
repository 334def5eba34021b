/** The codecs as the store runs them: a cursor over a buffer, and loops that fill a map or
    push into an output buffer. Each is tied to its codec, so it inherits exactness. */
module CodecLoops {
  import opened Core
  import opened Words
  import opened Digests
  import opened Canonical
  import opened Listings
  import opened Blobs

  /** A bounds-checked cursor. */
  class Reader {
    const buf: Bytes
    var pos: nat

    ghost predicate Valid()
      reads this
    {
      pos <= |buf|
    }

    function Rest(): Bytes
      requires Valid()
      reads this
    {
      buf[pos..]
    }

    constructor (buf: Bytes)
      ensures Valid() && Rest() == buf && this.buf == buf
    {
      this.buf := buf;
      pos := 0;
    }

    /** Read one field and move past it; a shortfall or a bad byte moves nothing. */
    method Field<T(!new)>(c: Codec<T>) returns (r: Option<T>)
      requires Valid() && Exact(c)
      modifies this
      ensures Valid()
      ensures match c.read(old(Rest())) case Bad => r.None? && pos == old(pos) case Got(x, rest) => r == Some(x) && Rest() == rest
    {
      match c.read(buf[pos..])
      case Bad => r := None;
      case Got(x, rest) =>
        assert buf[pos..] == c.write(x) + rest;
        pos := |buf| - |rest|;
        r := Some(x);
    }

    method AtEnd() returns (yes: bool)
      requires Valid()
      ensures yes <==> Rest() == []
    {
      yes := pos == |buf|;
    }

    /** `n` rows, each after the one before it, inserted in a map. */
    method Rows<T(!new)>(row: Codec<(Path, T)>, n: nat) returns (r: Option<map<Path, T>>)
      requires Valid() && Exact(row)
      modifies this
      ensures Valid()
      ensures match ReadRows(row, n, None, old(Rest()))
              case Bad => r.None?
              case Got(es, rest) => r == Some(ToMap(es)) && Rest() == rest
    {
      ghost var es: seq<(Path, T)> := [];
      var m: map<Path, T> := map[];
      var prev: Option<Path> := None;
      var i := 0;
      JoinedNone(ReadRows(row, n, None, Rest()));
      while i < n
        invariant Valid() && 0 <= i <= n
        invariant m == ToMap(es)
        invariant ReadRows(row, n, None, old(Rest())) == Joined(es, ReadRows(row, n - i, prev, Rest()))
      {
        var e := Field(row);
        if e.None? || !After(prev, e.value.0) {
          return None;
        }
        JoinedSnoc(es, e.value, ReadRows(row, n - i - 1, Some(e.value.0), Rest()));
        ToMapSnoc(es, e.value);
        es := es + [e.value];
        m := m[e.value.0 := e.value.1];
        prev := Some(e.value.0);
        i := i + 1;
      }
      assert es + [] == es;
      return Some(m);
    }

    /** A count, then that many rows. */
    method Map<T(!new)>(count: Codec<nat>, row: Codec<(Path, T)>) returns (r: Option<map<Path, T>>)
      requires Valid() && Exact(count) && Exact(row)
      modifies this
      ensures Valid()
      ensures match Listing(count, row).read(old(Rest()))
              case Bad => r.None?
              case Got(m, rest) => r == Some(m) && Rest() == rest
    {
      ListingSteps(count, row, Rest());
      var n := Field(count);
      if n.None? {
        return None;
      }
      r := Rows(row, n.value);
    }
  }

  lemma ListingSteps<T(!new)>(count: Codec<nat>, row: Codec<(Path, T)>, b: Bytes)
    ensures Listing(count, row).read(b) == (
              match count.read(b)
              case Bad => Bad
              case Got(n, rest) =>
                match ReadRows(row, n, None, rest) case Bad => Bad case Got(es, rest) => Got(ToMap(es), rest))
  {
    match count.read(b)
    case Bad =>
      assert Listings.Rows(count, row).read(b) == Bad;
    case Got(n, rest) =>
      var r := ReadRows(row, n, None, rest);
      assert Listings.Rows(count, row).read(b) == r;
      assert r.Got? ==> Rebuild(r.value) == Some(ToMap(r.value));
  }

  lemma ToMapSnoc<T>(es: seq<(Path, T)>, e: (Path, T))
    ensures ToMap(es + [e]) == ToMap(es)[e.0 := e.1]
  {
    assert (es + [e])[..|es|] == es;
  }

  /** Rows already read, in front of those still to come. */
  function Joined<T>(es: seq<(Path, T)>, r: Read<seq<(Path, T)>>): Read<seq<(Path, T)>> {
    match r case Bad => Bad case Got(more, rest) => Got(es + more, rest)
  }

  lemma JoinedNone<T>(r: Read<seq<(Path, T)>>)
    ensures Joined([], r) == r
  {
    if r.Got? {
      assert [] + r.value == r.value;
    }
  }

  lemma JoinedSnoc<T>(es: seq<(Path, T)>, e: (Path, T), r: Read<seq<(Path, T)>>)
    ensures Joined(es + [e], r) == Joined(es, match r case Bad => Bad case Got(more, rest) => Got([e] + more, rest))
  {
    if r.Got? {
      assert es + [e] + r.value == es + ([e] + r.value);
    }
  }

  lemma TreeSteps(bytes: Bytes)
    ensures DecodeTree(bytes) == (
              match Tag(TREE_DOMAIN).read(bytes)
              case Bad => None
              case Got(_, rest) =>
                match Children().read(rest)
                case Bad => None
                case Got(m, rest) => if rest == [] then Some(Tree(m)) else None)
  {
    TreeStepsOf(Tag(TREE_DOMAIN), Children(), bytes);
  }

  lemma TreeStepsOf(tag: Codec<()>, children: Codec<map<Path, TreeEntry>>, bytes: Bytes)
    ensures Decode(AsTree(Pair(tag, children)), bytes) == (
              match tag.read(bytes)
              case Bad => None
              case Got(_, rest) =>
                match children.read(rest)
                case Bad => None
                case Got(m, rest) => if rest == [] then Some(Tree(m)) else None)
  {
  }

  /** `Tree::from_canonical_bytes`. */
  method ParseTree(bytes: Bytes) returns (r: Option<Tree>)
    ensures r == DecodeTree(bytes)
  {
    TreeSteps(bytes);
    var rd := new Reader(bytes);
    TagExact(TREE_DOMAIN);
    var tag := rd.Field(Tag(TREE_DOMAIN));
    if tag.None? {
      return None;
    }
    WordExact(8);
    ChildRowExact();
    var m := rd.Map(Word(8), ChildRow());
    if m.None? {
      return None;
    }
    var end := rd.AtEnd();
    r := if end then Some(Tree(m.value)) else None;
  }

  lemma ResultSteps(bytes: Bytes)
    ensures DecodeResult(bytes) == (
              match Tag(AR_DOMAIN).read(bytes)
              case Bad => None
              case Got(_, rest) =>
                match ExitCode().read(rest)
                case Bad => None
                case Got(code, rest) =>
                  match Outputs().read(rest)
                  case Bad => None
                  case Got(m, rest) => Ending(code, m, Opt(DigestField()), rest))
  {
    ResultStepsOf(Tag(AR_DOMAIN), ExitCode(), Outputs(), Opt(DigestField()), bytes);
  }

  /** The two optional digests that end an action result, and nothing after them. */
  function Ending(code: i32, m: map<Path, OutputFile>, opt: Codec<Option<Digest>>, b: Bytes): Option<ActionResult> {
    match opt.read(b)
    case Bad => None
    case Got(out, rest) =>
      match opt.read(rest)
      case Bad => None
      case Got(err, rest) => if rest == [] then Some(ActionResult(m, code, out, err)) else None
  }

  lemma ResultStepsOf(tag: Codec<()>, exit: Codec<i32>, outputs: Codec<map<Path, OutputFile>>, opt: Codec<Option<Digest>>, bytes: Bytes)
    ensures Decode(AsResult(Pair(tag, Pair(exit, Pair(outputs, Pair(opt, opt))))), bytes) == (
              match tag.read(bytes)
              case Bad => None
              case Got(_, rest) =>
                match exit.read(rest)
                case Bad => None
                case Got(code, rest) =>
                  match outputs.read(rest)
                  case Bad => None
                  case Got(m, rest) => Ending(code, m, opt, rest))
  {
  }

  /** `ActionResult::from_canonical_bytes`. */
  method ParseResult(bytes: Bytes) returns (r: Option<ActionResult>)
    ensures r == DecodeResult(bytes)
  {
    ResultSteps(bytes);
    var rd := new Reader(bytes);
    TagExact(AR_DOMAIN);
    var tag := rd.Field(Tag(AR_DOMAIN));
    if tag.None? {
      return None;
    }
    ExitCodeExact();
    var code := rd.Field(ExitCode());
    if code.None? {
      return None;
    }
    WordExact(8);
    OutputRowExact();
    var m := rd.Map(Word(8), OutputRow());
    if m.None? {
      return None;
    }
    r := ParseEnding(rd, code.value, m.value);
  }

  method ParseEnding(rd: Reader, code: i32, m: map<Path, OutputFile>) returns (r: Option<ActionResult>)
    requires rd.Valid()
    modifies rd
    ensures r == Ending(code, m, Opt(DigestField()), old(rd.Rest()))
  {
    DigestFieldExact();
    OptExact(DigestField());
    var out := rd.Field(Opt(DigestField()));
    if out.None? {
      return None;
    }
    var err := rd.Field(Opt(DigestField()));
    if err.None? {
      return None;
    }
    var end := rd.AtEnd();
    r := if end then Some(ActionResult(m, code, out.value, err.value)) else None;
  }

  // ---- Writers ----

  lemma {:induction false} WriteRowsSnoc<T>(row: Codec<(Path, T)>, es: seq<(Path, T)>, e: (Path, T))
    ensures WriteRows(row, es + [e]) == WriteRows(row, es) + row.write(e)
  {
    if |es| == 0 {
      assert ([] + [e])[1..] == [];
    } else {
      WriteRowsSnoc(row, es[1..], e);
      assert (es + [e])[1..] == es[1..] + [e];
    }
  }

  /** Push every row, in order. */
  method PushRows<T>(row: Codec<(Path, T)>, es: seq<(Path, T)>) returns (out: Bytes)
    ensures out == WriteRows(row, es)
  {
    out := [];
    for i := 0 to |es|
      invariant out == WriteRows(row, es[..i])
    {
      WriteRowsSnoc(row, es[..i], es[i]);
      assert es[..i + 1] == es[..i] + [es[i]];
      out := out + row.write(es[i]);
    }
    assert es[..|es|] == es;
  }

  lemma TreeBytes(tag: Bytes, count: Codec<nat>, row: Codec<(Path, TreeEntry)>, t: Tree)
    ensures AsTree(Pair(Tag(tag), Listing(count, row))).write(t)
            == tag + (count.write(|t.entries|) + WriteRows(row, Entries(t.entries)))
  {
  }

  /** `Tree::to_canonical_bytes`. */
  method WriteTree(t: Tree) returns (out: Bytes)
    ensures out == EncodeTree(t)
  {
    var rows := PushRows(ChildRow(), Entries(t.entries));
    out := TREE_DOMAIN + (LE(|t.entries|, 8) + rows);
    TreeBytes(TREE_DOMAIN, Word(8), ChildRow(), t);
  }

  lemma ResultBytes(tag: Bytes, exit: Codec<i32>, count: Codec<nat>, row: Codec<(Path, OutputFile)>, opt: Codec<Option<Digest>>, v: ActionResult)
    ensures AsResult(Pair(Tag(tag), Pair(exit, Pair(Listing(count, row), Pair(opt, opt))))).write(v)
            == tag + (exit.write(v.exitCode)
                      + ((count.write(|v.outputs|) + WriteRows(row, Entries(v.outputs)))
                         + (opt.write(v.stdout) + opt.write(v.stderr))))
  {
  }

  /** `ActionResult::to_canonical_bytes`. */
  method WriteResult(v: ActionResult) returns (out: Bytes)
    ensures out == EncodeResult(v)
  {
    var rows := PushRows(OutputRow(), Entries(v.outputs));
    var opt := Opt(DigestField());
    out := AR_DOMAIN + (LE(ToWord(v.exitCode), 4)
                        + ((LE(|v.outputs|, 8) + rows) + (opt.write(v.stdout) + opt.write(v.stderr))));
    ResultBytes(AR_DOMAIN, ExitCode(), Word(8), OutputRow(), opt, v);
  }
}
