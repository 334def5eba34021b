/** The two structured blob types, their canonical bytes, and what they refer to. */
module Blobs {
  import opened Core
  import opened Words
  import opened Digests
  import opened Canonical
  import opened Listings

  datatype OutputFile = OutputFile(digest: Digest, executable: bool)

  datatype ActionResult = ActionResult(
    outputs: map<Path, OutputFile>,
    exitCode: i32,
    stdout: Option<Digest>,
    stderr: Option<Digest>)

  datatype TreeKind = File(executable: bool) | Dir

  datatype TreeEntry = TreeEntry(digest: Digest, kind: TreeKind)

  datatype Tree = Tree(entries: map<Path, TreeEntry>)

  /** Domain tags, each ended by a zero byte. */
  const AR_DOMAIN: Bytes := Ascii("nessie.ActionResult.v1") + [0]
  const TREE_DOMAIN: Bytes := Ascii("nessie.Tree.v1") + [0]

  // ---- Action results ----

  function OutputField(): Codec<OutputFile> {
    Narrow(Pair(DigestField(), Bool()),
           (_: OutputFile) => true,
           (f: OutputFile) => (f.digest, f.executable),
           (p: (Digest, bool)) => Some(OutputFile(p.0, p.1)))
  }

  lemma OutputFieldExact()
    ensures Exact(OutputField())
  {
    DigestFieldExact();
    BoolExact();
    PairExact(DigestField(), Bool());
    NarrowExact(Pair(DigestField(), Bool()),
                (_: OutputFile) => true,
                (f: OutputFile) => (f.digest, f.executable),
                (p: (Digest, bool)) => Some(OutputFile(p.0, p.1)));
  }

  function OutputRow(): Codec<(Path, OutputFile)> {
    Pair(PathField(), OutputField())
  }

  lemma OutputRowExact()
    ensures Exact(OutputRow())
  {
    PathFieldExact();
    OutputFieldExact();
    PairExact(PathField(), OutputField());
  }

  function Outputs(): Codec<map<Path, OutputFile>> {
    Listing(Word(8), OutputRow())
  }

  lemma OutputsExact()
    ensures Exact(Outputs())
    ensures forall m :: Outputs().ok(m) <==> |m| <= U64_MAX
  {
    Widths();
    WordExact(8);
    OutputRowExact();
    ListingExact(Word(8), OutputRow());
    forall m ensures Outputs().ok(m) <==> |m| <= U64_MAX {
      assert forall k :: k in m ==> OutputRow().ok((k, m[k]));
    }
  }

  function ToExit(n: nat): Option<i32> {
    if n < 0x1_0000_0000 then Some(FromWord(n)) else None
  }

  function ExitCode(): Codec<i32> {
    Narrow(Word(4), (_: i32) => true, (x: i32) => ToWord(x), ToExit)
  }

  lemma ExitCodeExact()
    ensures Exact(ExitCode())
  {
    Widths();
    WordExact(4);
    NarrowExact(Word(4), (_: i32) => true, (x: i32) => ToWord(x), ToExit);
  }

  /** stdout, then stderr. */
  function Streams(): Codec<(Option<Digest>, Option<Digest>)> {
    Pair(Opt(DigestField()), Opt(DigestField()))
  }

  type ResultFields = ((), (i32, (map<Path, OutputFile>, (Option<Digest>, Option<Digest>))))

  function ResultLayout(): Codec<ResultFields> {
    Pair(Tag(AR_DOMAIN), Pair(ExitCode(), Pair(Outputs(), Streams())))
  }

  /** The record view of the laid-out fields. */
  function AsResult(fields: Codec<ResultFields>): Codec<ActionResult> {
    Narrow(fields,
           (v: ActionResult) => |v.outputs| <= U64_MAX,
           (v: ActionResult) => ((), (v.exitCode, (v.outputs, (v.stdout, v.stderr)))),
           (p: ResultFields) => Some(ActionResult(p.1.1.0, p.1.0, p.1.1.1.0, p.1.1.1.1)))
  }

  lemma AsResultExact(fields: Codec<ResultFields>)
    requires Exact(fields)
    requires forall p :: fields.ok(p) <==> |p.1.1.0| <= U64_MAX
    ensures Exact(AsResult(fields))
  {
    forall p: ResultFields ensures ((), (p.1.0, (p.1.1.0, (p.1.1.1.0, p.1.1.1.1)))) == p {
      assert p.0 == ();
    }
    NarrowExact(fields,
                (v: ActionResult) => |v.outputs| <= U64_MAX,
                (v: ActionResult) => ((), (v.exitCode, (v.outputs, (v.stdout, v.stderr)))),
                (p: ResultFields) => Some(ActionResult(p.1.1.0, p.1.0, p.1.1.1.0, p.1.1.1.1)));
  }

  function ResultCodec(): Codec<ActionResult> {
    AsResult(ResultLayout())
  }

  lemma StreamsExact()
    ensures Exact(Streams())
  {
    DigestFieldExact();
    OptExact(DigestField());
    PairExact(Opt(DigestField()), Opt(DigestField()));
  }

  lemma ResultLayoutExact()
    ensures Exact(ResultLayout())
  {
    TagExact(AR_DOMAIN);
    ExitCodeExact();
    OutputsExact();
    StreamsExact();
    PairExact(Outputs(), Streams());
    PairExact(ExitCode(), Pair(Outputs(), Streams()));
    PairExact(Tag(AR_DOMAIN), Pair(ExitCode(), Pair(Outputs(), Streams())));
  }

  lemma ResultLayoutOk(p: ResultFields)
    ensures ResultLayout().ok(p) <==> |p.1.1.0| <= U64_MAX
  {
    OutputsExact();
  }

  lemma ResultCodecExact()
    ensures Exact(ResultCodec())
  {
    ResultLayoutExact();
    forall p ensures ResultLayout().ok(p) <==> |p.1.1.0| <= U64_MAX {
      ResultLayoutOk(p);
    }
    AsResultExact(ResultLayout());
  }

  function EncodeResult(v: ActionResult): Bytes {
    ResultCodec().write(v)
  }

  function DecodeResult(b: Bytes): Option<ActionResult> {
    Decode(ResultCodec(), b)
  }

  /** The action-result codec is exact: its bytes and its values are one-to-one, so no
      truncated, reordered, duplicated or extended form is ever accepted. */
  lemma ResultRoundTrip(b: Bytes, v: ActionResult)
    ensures DecodeResult(b) == Some(v) <==> |v.outputs| <= U64_MAX && b == EncodeResult(v)
  {
    ResultCodecExact();
    DecodeExact(ResultCodec(), b, v);
  }

  // ---- Trees ----

  function ToKind(e: Either<bool, ()>): TreeKind {
    match e case Left(x) => File(x) case Right(_) => Dir
  }

  function FromKind(k: TreeKind): Either<bool, ()> {
    match k case File(x) => Left(x) case Dir => Right(())
  }

  function ChildField(): Codec<TreeEntry> {
    Narrow(Pair(Choice(Bool(), Tag([])), DigestField()),
           (_: TreeEntry) => true,
           (e: TreeEntry) => (FromKind(e.kind), e.digest),
           (p: (Either<bool, ()>, Digest)) => Some(TreeEntry(p.1, ToKind(p.0))))
  }

  lemma ChildFieldExact()
    ensures Exact(ChildField())
  {
    BoolExact();
    TagExact([]);
    ChoiceExact(Bool(), Tag([]));
    DigestFieldExact();
    PairExact(Choice(Bool(), Tag([])), DigestField());
    forall e: Either<bool, ()> ensures FromKind(ToKind(e)) == e {
      assert e.Right? ==> e.right == ();
    }
    NarrowExact(Pair(Choice(Bool(), Tag([])), DigestField()),
                (_: TreeEntry) => true,
                (e: TreeEntry) => (FromKind(e.kind), e.digest),
                (p: (Either<bool, ()>, Digest)) => Some(TreeEntry(p.1, ToKind(p.0))));
  }

  function ChildRow(): Codec<(Path, TreeEntry)> {
    Pair(PathField(), ChildField())
  }

  lemma ChildRowExact()
    ensures Exact(ChildRow())
  {
    PathFieldExact();
    ChildFieldExact();
    PairExact(PathField(), ChildField());
  }

  function Children(): Codec<map<Path, TreeEntry>> {
    Listing(Word(8), ChildRow())
  }

  lemma ChildrenExact()
    ensures Exact(Children())
    ensures forall m :: Children().ok(m) <==> |m| <= U64_MAX
  {
    Widths();
    WordExact(8);
    ChildRowExact();
    ListingExact(Word(8), ChildRow());
    forall m ensures Children().ok(m) <==> |m| <= U64_MAX {
      assert forall k :: k in m ==> ChildRow().ok((k, m[k]));
    }
  }

  function AsTree(fields: Codec<((), map<Path, TreeEntry>)>): Codec<Tree> {
    Narrow(fields,
           (t: Tree) => |t.entries| <= U64_MAX,
           (t: Tree) => ((), t.entries),
           (p: ((), map<Path, TreeEntry>)) => Some(Tree(p.1)))
  }

  lemma AsTreeExact(fields: Codec<((), map<Path, TreeEntry>)>)
    requires Exact(fields)
    requires forall p :: fields.ok(p) <==> |p.1| <= U64_MAX
    ensures Exact(AsTree(fields))
  {
    forall p: ((), map<Path, TreeEntry>) ensures ((), p.1) == p {
      assert p.0 == ();
    }
    NarrowExact(fields,
                (t: Tree) => |t.entries| <= U64_MAX,
                (t: Tree) => ((), t.entries),
                (p: ((), map<Path, TreeEntry>)) => Some(Tree(p.1)));
  }

  function TreeLayout(): Codec<((), map<Path, TreeEntry>)> {
    Pair(Tag(TREE_DOMAIN), Children())
  }

  function TreeCodec(): Codec<Tree> {
    AsTree(TreeLayout())
  }

  lemma TreeCodecExact()
    ensures Exact(TreeCodec())
  {
    TagExact(TREE_DOMAIN);
    ChildrenExact();
    PairExact(Tag(TREE_DOMAIN), Children());
    forall p: ((), map<Path, TreeEntry>) ensures TreeLayout().ok(p) <==> |p.1| <= U64_MAX {
    }
    AsTreeExact(TreeLayout());
  }

  function EncodeTree(t: Tree): Bytes {
    TreeCodec().write(t)
  }

  function DecodeTree(b: Bytes): Option<Tree> {
    Decode(TreeCodec(), b)
  }

  /** The tree codec is exact in the same sense. */
  lemma TreeRoundTrip(b: Bytes, t: Tree)
    ensures DecodeTree(b) == Some(t) <==> |t.entries| <= U64_MAX && b == EncodeTree(t)
  {
    TreeCodecExact();
    DecodeExact(TreeCodec(), b, t);
  }

  lemma ResultStarts(v: ActionResult)
    ensures AR_DOMAIN <= EncodeResult(v)
  {
    var body := Pair(ExitCode(), Pair(Outputs(), Streams())).write((v.exitCode, (v.outputs, (v.stdout, v.stderr))));
    assert EncodeResult(v) == AR_DOMAIN + body;
  }

  lemma TreeStarts(t: Tree)
    ensures TREE_DOMAIN <= EncodeTree(t)
  {
    assert EncodeTree(t) == TREE_DOMAIN + Children().write(t.entries);
  }

  /** The domain tags keep the two types apart: no bytes decode as both. */
  lemma NeverBoth(b: Bytes)
    ensures DecodeResult(b).None? || DecodeTree(b).None?
  {
    if DecodeResult(b).Some? && DecodeTree(b).Some? {
      var v, t := DecodeResult(b).value, DecodeTree(b).value;
      ResultRoundTrip(b, v);
      TreeRoundTrip(b, t);
      Apart(v, t);
    }
  }

  lemma Apart(v: ActionResult, t: Tree)
    ensures EncodeResult(v) != EncodeTree(t)
  {
    ResultStarts(v);
    TreeStarts(t);
    TagsDiffer(EncodeResult(v), EncodeTree(t));
  }

  lemma TagsDiffer(a: Bytes, b: Bytes)
    requires AR_DOMAIN <= a && TREE_DOMAIN <= b
    ensures a != b
  {
    assert a[7] == AR_DOMAIN[7] && b[7] == TREE_DOMAIN[7];
  }

  // ---- References ----

  function OutputTargets(es: seq<(Path, OutputFile)>): seq<Digest> {
    seq(|es|, i requires 0 <= i < |es| => es[i].1.digest)
  }

  function ChildTargets(es: seq<(Path, TreeEntry)>): seq<Digest> {
    seq(|es|, i requires 0 <= i < |es| => es[i].1.digest)
  }

  function OptSeq(o: Option<Digest>): seq<Digest> {
    match o case None => [] case Some(d) => [d]
  }

  function ResultReferences(v: ActionResult): seq<Digest> {
    OutputTargets(Entries(v.outputs)) + OptSeq(v.stdout) + OptSeq(v.stderr)
  }

  function TreeReferences(t: Tree): seq<Digest> {
    ChildTargets(Entries(t.entries))
  }

  /** What an opaque blob points at: the references of whichever type it decodes as. */
  function ReferencesOf(b: Bytes): seq<Digest> {
    match DecodeResult(b)
    case Some(v) => ResultReferences(v)
    case None =>
      match DecodeTree(b)
      case Some(t) => TreeReferences(t)
      case None => []
  }

  lemma OutputEdges(m: map<Path, OutputFile>, d: Digest)
    ensures d in OutputTargets(Entries(m)) <==> exists k :: k in m && m[k].digest == d
  {
    var es := Entries(m);
    if d in OutputTargets(es) {
      var i :| 0 <= i < |es| && OutputTargets(es)[i] == d;
      EntriesContents(m, es[i]);
    }
    if k :| k in m && m[k].digest == d {
      EntriesContents(m, (k, m[k]));
      var i :| 0 <= i < |es| && es[i] == (k, m[k]);
      assert OutputTargets(es)[i] == d;
    }
  }

  lemma ChildEdges(m: map<Path, TreeEntry>, d: Digest)
    ensures d in ChildTargets(Entries(m)) <==> exists k :: k in m && m[k].digest == d
  {
    var es := Entries(m);
    if d in ChildTargets(es) {
      var i :| 0 <= i < |es| && ChildTargets(es)[i] == d;
      EntriesContents(m, es[i]);
    }
    if k :| k in m && m[k].digest == d {
      EntriesContents(m, (k, m[k]));
      var i :| 0 <= i < |es| && es[i] == (k, m[k]);
      assert ChildTargets(es)[i] == d;
    }
  }

  /** `v` names `d`: an output, its stdout or its stderr. */
  ghost predicate ResultNames(v: ActionResult, d: Digest) {
    (exists k :: k in v.outputs && v.outputs[k].digest == d) || v.stdout == Some(d) || v.stderr == Some(d)
  }

  ghost predicate TreeNames(t: Tree, d: Digest) {
    exists k :: k in t.entries && t.entries[k].digest == d
  }

  lemma NamesMember(v: ActionResult, d: Digest)
    ensures d in ResultReferences(v) <==> ResultNames(v, d)
  {
    OutputEdges(v.outputs, d);
  }

  /** The edges found in the bytes of an action result are exactly the digests it names. */
  lemma ResolvesResult(v: ActionResult, d: Digest)
    requires |v.outputs| <= U64_MAX
    ensures d in ReferencesOf(EncodeResult(v)) <==> ResultNames(v, d)
  {
    ResultRoundTrip(EncodeResult(v), v);
    assert ReferencesOf(EncodeResult(v)) == ResultReferences(v);
    NamesMember(v, d);
  }

  /** The edges found in the bytes of a tree are exactly its children: reading them as an
      action result first cannot succeed. */
  lemma ResolvesTree(t: Tree, d: Digest)
    requires |t.entries| <= U64_MAX
    ensures d in ReferencesOf(EncodeTree(t)) <==> TreeNames(t, d)
  {
    var b := EncodeTree(t);
    TreeRoundTrip(b, t);
    NeverBoth(b);
    ChildEdges(t.entries, d);
  }

  /** Bytes that are neither are a leaf. */
  lemma ResolvesLeaf(b: Bytes)
    requires forall v: ActionResult :: b != EncodeResult(v)
    requires forall t: Tree :: b != EncodeTree(t)
    ensures ReferencesOf(b) == []
  {
    if DecodeResult(b).Some? {
      ResultRoundTrip(b, DecodeResult(b).value);
    }
    if DecodeTree(b).Some? {
      TreeRoundTrip(b, DecodeTree(b).value);
    }
  }
}
