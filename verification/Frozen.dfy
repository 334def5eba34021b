/** The frozen byte layouts, written out field by field and byte by byte, and that the codecs
    produce exactly these. */
module Frozen {
  import opened Core
  import opened Words
  import opened Digests
  import opened Canonical
  import opened Listings
  import opened Blobs
  import opened Attestations
  import opened CodecLoops

  // ---- Words ----

  /** The digit of weight 256 to the power `i`. */
  function Digit(n: nat, i: nat): nat {
    if i == 0 then n % 256 else Digit(n / 256, i - 1)
  }

  /** Little-endian: byte `i` is the digit of weight `i`. */
  lemma {:induction false} LittleEndian(n: nat, w: nat, i: nat)
    requires i < w
    ensures LE(n, w)[i] == Digit(n, i)
  {
    if i > 0 {
      LittleEndian(n / 256, w - 1, i - 1);
    }
  }

  /** Big-endian: the digits the other way round. */
  lemma {:induction false} BigEndian(n: nat, w: nat, i: nat)
    requires i < w
    ensures BE(n, w)[w - 1 - i] == Digit(n, i)
  {
    if i > 0 {
      BigEndian(n / 256, w - 1, i - 1);
    }
  }

  /** A count of 258 as eight bytes, low byte first, and as four, high byte first. */
  lemma CountBytes()
    ensures LE(258, 8) == [2, 1, 0, 0, 0, 0, 0, 0]
    ensures BE(258, 4) == [0, 0, 1, 2]
  {
    ZeroBytes(6);
    assert LE(258, 8) == [2] + LE(1, 7) && LE(1, 7) == [1] + LE(0, 6);
    ZeroBytes(2);
    assert BE(258, 4) == BE(1, 3) + [2] && BE(1, 3) == BE(0, 2) + [1];
  }

  lemma {:induction false} ZeroBytes(w: nat)
    ensures LE(0, w) == seq(w, _ => 0)
    ensures BE(0, w) == seq(w, _ => 0)
  {
    if w > 0 {
      ZeroBytes(w - 1);
    }
  }

  // ---- Fields ----

  function Multihash(d: Digest): Bytes {
    [if d.algo == Blake3 then 0x1e else 0x12, 32] + d.bytes
  }

  function Sized8(b: Bytes): Bytes {
    LE(|b|, 8) + b
  }

  function Flag(x: bool): Bytes {
    [if x then 1 else 0]
  }

  function Maybe(o: Option<Digest>): Bytes {
    if o.None? then [0] else [1] + Sized8(Multihash(o.value))
  }

  /** Path, digest, executable flag. */
  function OutputBytes(e: (Path, OutputFile)): Bytes {
    Sized8(e.0) + (Sized8(Multihash(e.1.digest)) + Flag(e.1.executable))
  }

  /** Zero and the executable flag for a file, one for a directory. */
  function KindBytes(k: TreeKind): Bytes {
    if k.Dir? then [1] else [0] + Flag(k.executable)
  }

  /** Name, kind, digest. */
  function ChildBytes(e: (Path, TreeEntry)): Bytes {
    Sized8(e.0) + (KindBytes(e.1.kind) + Sized8(Multihash(e.1.digest)))
  }

  function Joined<T>(bytes: T -> Bytes, es: seq<T>): Bytes {
    if |es| == 0 then [] else bytes(es[0]) + Joined(bytes, es[1..])
  }

  lemma MultihashFrozen(d: Digest)
    ensures ToMultihash(d) == Multihash(d)
  {
  }

  lemma DigestFrozen(d: Digest)
    ensures DigestField().write(d) == Sized8(Multihash(d))
  {
    MultihashFrozen(d);
  }

  lemma MaybeFrozen<T>(c: Codec<T>, o: Option<T>)
    ensures Opt(c).write(o) == if o.None? then [0] else [1] + c.write(o.value)
  {
    var both := Choice(Tag([]), c);
    assert Opt(c).write(o) == both.write(FromOpt(o));
    match o {
      case None =>
        assert both.write(Left(())) == [0] + Tag([]).write(());
      case Some(x) =>
        assert both.write(Right(x)) == [1] + c.write(x);
    }
  }

  lemma OptFrozen(o: Option<Digest>)
    ensures Opt(DigestField()).write(o) == Maybe(o)
  {
    MaybeFrozen(DigestField(), o);
    if o.Some? {
      DigestFrozen(o.value);
    }
  }

  lemma PathFrozen(p: Path)
    ensures PathField().write(p) == Sized8(p)
  {
  }

  lemma OutputFrozen(e: (Path, OutputFile))
    ensures OutputRow().write(e) == OutputBytes(e)
  {
    PathFrozen(e.0);
    DigestFrozen(e.1.digest);
  }

  lemma KindFrozen(k: TreeKind)
    ensures Choice(Bool(), Tag([])).write(FromKind(k)) == KindBytes(k)
  {
    var both := Choice(Bool(), Tag([]));
    match k {
      case File(x) =>
        assert both.write(Left(x)) == [0] + Bool().write(x);
      case Dir =>
        assert both.write(Right(())) == [1] + Tag([]).write(());
    }
  }

  lemma EntryFrozen(e: TreeEntry)
    ensures ChildField().write(e) == KindBytes(e.kind) + Sized8(Multihash(e.digest))
  {
    KindFrozen(e.kind);
    DigestFrozen(e.digest);
    var both := Pair(Choice(Bool(), Tag([])), DigestField());
    assert ChildField().write(e) == both.write((FromKind(e.kind), e.digest));
  }

  lemma ChildFrozen(e: (Path, TreeEntry))
    ensures ChildRow().write(e) == ChildBytes(e)
  {
    PathFrozen(e.0);
    EntryFrozen(e.1);
    PairFrozen(PathField(), ChildField(), e);
  }

  lemma PairFrozen<A, B>(a: Codec<A>, b: Codec<B>, p: (A, B))
    ensures Pair(a, b).write(p) == a.write(p.0) + b.write(p.1)
  {
  }

  lemma {:induction false} RowsFrozen<T>(row: Codec<(Path, T)>, bytes: ((Path, T)) -> Bytes, es: seq<(Path, T)>)
    requires forall e :: row.write(e) == bytes(e)
    ensures WriteRows(row, es) == Joined(bytes, es)
  {
    if |es| > 0 {
      RowsFrozen(row, bytes, es[1..]);
    }
  }

  // ---- Values ----

  /** The three tags, character by character. */
  lemma Tags()
    ensures TREE_DOMAIN == [110, 101, 115, 115, 105, 101, 46, 84, 114, 101, 101, 46, 118, 49, 0]
    ensures AR_DOMAIN
            == [110, 101, 115, 115, 105, 101, 46, 65, 99, 116, 105, 111, 110, 82, 101, 115, 117, 108, 116, 46, 118, 49, 0]
    ensures STMT_DOMAIN
            == [110, 101, 115, 115, 105, 101, 46, 65, 116, 116, 101, 115, 116, 97, 116, 105, 111, 110, 46, 118, 49, 0]
  {
    assert Ascii("nessie.") == [110, 101, 115, 115, 105, 101, 46];
  }

  function ResultBytesOf(v: ActionResult): Bytes {
    Ascii("nessie.ActionResult.v1") + [0]
    + (LE(ToWord(v.exitCode), 4)
       + ((LE(|v.outputs|, 8) + Joined(OutputBytes, Entries(v.outputs))) + (Maybe(v.stdout) + Maybe(v.stderr))))
  }

  function TreeBytesOf(t: Tree): Bytes {
    Ascii("nessie.Tree.v1") + [0] + (LE(|t.entries|, 8) + Joined(ChildBytes, Entries(t.entries)))
  }

  /** An action result is its tag, exit code, outputs in path order, stdout and stderr. */
  lemma ResultFrozen(v: ActionResult)
    ensures EncodeResult(v) == ResultBytesOf(v)
  {
    forall e ensures OutputRow().write(e) == OutputBytes(e) {
      OutputFrozen(e);
    }
    RowsFrozen(OutputRow(), OutputBytes, Entries(v.outputs));
    OptFrozen(v.stdout);
    OptFrozen(v.stderr);
    ResultBytes(AR_DOMAIN, ExitCode(), Word(8), OutputRow(), Opt(DigestField()), v);
  }

  /** A tree is its tag and its children in name order. */
  lemma TreeFrozen(t: Tree)
    ensures EncodeTree(t) == TreeBytesOf(t)
  {
    forall e ensures ChildRow().write(e) == ChildBytes(e) {
      ChildFrozen(e);
    }
    RowsFrozen(ChildRow(), ChildBytes, Entries(t.entries));
    TreeBytes(TREE_DOMAIN, Word(8), ChildRow(), t);
  }

  /** What is signed is a tag, the action and the result. */
  lemma StatementFrozen(action: Digest, result: Digest)
    ensures Statement(action, result)
            == Ascii("nessie.Attestation.v1") + [0] + (Multihash(action) + Multihash(result))
  {
    MultihashFrozen(action);
    MultihashFrozen(result);
  }
}
