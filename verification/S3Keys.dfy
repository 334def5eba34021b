/** Object keys: the key of a blob, and the blob a key names. */
module S3Keys {
  import opened Core
  import opened Digests
  import opened Text

  const SLASH: byte := '/' as int
  const CAS: Bytes := Ascii("cas")

  /** A blob's entity tag is its bare hex. */
  function Etag(d: Digest): Bytes {
    Hex(d.bytes)
  }

  function CanonicalKey(d: Digest): Bytes {
    CAS + [SLASH] + Etag(d)[..2] + [SLASH] + Etag(d)
  }

  /** The last slash, or -1. */
  function LastSlash(t: Bytes): (n: int)
    ensures -1 <= n < |t|
    ensures n >= 0 ==> t[n] == SLASH
    ensures forall m :: n < m < |t| ==> t[m] != SLASH
  {
    if |t| == 0 then -1 else if t[|t| - 1] == SLASH then |t| - 1 else LastSlash(t[..|t| - 1])
  }

  /** The text after the last slash. */
  function Segment(t: Bytes): Bytes {
    t[LastSlash(t) + 1..]
  }

  /** What comes before the last slash, if there is one. */
  function Parent(t: Bytes): Option<Bytes> {
    if LastSlash(t) < 0 then None else Some(t[..LastSlash(t)])
  }

  function SegmentOf(t: Option<Bytes>): Option<Bytes> {
    if t.None? then None else Some(Segment(t.value))
  }

  function ParentOf(t: Option<Bytes>): Option<Bytes> {
    if t.None? then None else Parent(t.value)
  }

  datatype ObjectKey = Cas(digest: Digest) | Compressed | NotContentAddressed

  predicate AllLowerHex(t: Bytes) {
    forall i :: 0 <= i < |t| ==> LowerHex(t[i])
  }

  function Sha256Digest(hash: Bytes): Option<Digest> {
    if |hash| != 64 || !AllLowerHex(hash) then None
    else match Parse(Ascii("sha2-256") + [COLON] + hash)
      case Ok(d) => Some(d)
      case Err(_) => None
  }

  predicate IsKind(t: Bytes) {
    t == CAS || t == Ascii("cas.v2") || t == Ascii("ac") || t == Ascii("raw")
  }

  predicate KindIn(t: Option<Bytes>) {
    t.Some? && IsKind(t.value)
  }

  function CasKey(hash: Bytes): Option<ObjectKey> {
    match Sha256Digest(hash) case None => None case Some(d) => Some(Cas(d))
  }

  /** What the last three segments of a key name; a short key lacks some. */
  function Classify(hash: Bytes, shard: Option<Bytes>, kind: Option<Bytes>): Option<ObjectKey> {
    if shard.Some? && kind.Some? && |shard.value| == 2 && shard.value <= hash && IsKind(kind.value) then
      if kind.value == CAS then CasKey(hash)
      else if kind.value == Ascii("cas.v2") then Some(Compressed)
      else Some(NotContentAddressed)
    else if KindIn(shard) || KindIn(kind) then None
    else CasKey(hash)
  }

  /** The client's own prefix is ignored. */
  function ParseKey(key: Bytes): Option<ObjectKey> {
    Classify(Segment(key), SegmentOf(Parent(key)), SegmentOf(ParentOf(Parent(key))))
  }

  // ---- Segments ----

  lemma Split(a: Bytes, b: Bytes)
    requires SLASH !in b
    ensures Parent(a + [SLASH] + b) == Some(a) && Segment(a + [SLASH] + b) == b
  {
    var t := a + [SLASH] + b;
    assert t[|a|] == SLASH;
    assert forall m | |a| < m < |t| :: t[m] == b[m - |a| - 1];
    assert LastSlash(t) == |a|;
    assert t[|a| + 1..] == b && t[..|a|] == a;
  }

  /** The last segment of a prefix grows by whatever slash-free text follows it. */
  lemma Grow(p: Bytes, b: Bytes)
    requires SLASH !in b
    ensures Segment(p + b) == Segment(p) + b
  {
    var t := p + b;
    assert forall m | |p| <= m < |t| :: t[m] == b[m - |p|];
    assert forall m | 0 <= m < |p| :: t[m] == p[m];
    assert LastSlash(t) == LastSlash(p);
    assert t[LastSlash(p) + 1..] == p[LastSlash(p) + 1..] + b;
  }

  lemma HexHasNoSlash(b: Bytes)
    ensures SLASH !in Hex(b)
  {
    HexIsLower(b);
  }

  // ---- What keys name ----

  /** Exactly a digest's own lower-case hex names it. */
  lemma Sha256Exact(hash: Bytes, d: Digest)
    ensures Sha256Digest(hash) == Some(d) <==> d.algo == Sha256 && hash == Hex(d.bytes)
  {
    var t := Ascii("sha2-256") + [COLON] + hash;
    var k := |Ascii("sha2-256")|;
    assert t[..k + 1] == Ascii("sha2-256") + [COLON] && t[k + 1..] == hash;
    ParseExact(t, d);
    HexIsLower(d.bytes);
    if AllLowerHex(hash) {
      FoldLower(hash);
    }
    if Parse(t) == Ok(d) {
      ParsedShape(t, d);
      assert t[0] == 's' as int;
      assert Name(d.algo)[0] == (Name(d.algo) + [COLON])[0] == t[..|Name(d.algo)| + 1][0];
    }
  }

  lemma OnlyCasNames(hash: Bytes, shard: Option<Bytes>, kind: Option<Bytes>, d: Digest)
    requires Classify(hash, shard, kind) == Some(Cas(d))
    ensures Sha256Digest(hash) == Some(d)
  {
  }

  /** A key names at most one blob, and only by that blob's lower-case hex. */
  lemma KeysNameHex(key: Bytes, d: Digest)
    requires ParseKey(key) == Some(Cas(d))
    ensures d.algo == Sha256 && Segment(key) == Hex(d.bytes)
  {
    OnlyCasNames(Segment(key), SegmentOf(Parent(key)), SegmentOf(ParentOf(Parent(key))), d);
    Sha256Exact(Segment(key), d);
  }

  /** A hash filed under a kind, in the directory of its first two characters. */
  function KeyUnder(kind: Bytes, hash: Bytes): Bytes
    requires |hash| >= 2
  {
    kind + [SLASH] + hash[..2] + [SLASH] + hash
  }

  lemma KeyParts(p: Bytes, kind: Bytes, hash: Bytes)
    requires |hash| >= 2 && SLASH !in kind && SLASH !in hash
    ensures var key := p + KeyUnder(kind, hash);
            && Segment(key) == hash
            && SegmentOf(Parent(key)) == Some(hash[..2])
            && SegmentOf(ParentOf(Parent(key))) == Some(Segment(p) + kind)
  {
    var key := p + KeyUnder(kind, hash);
    var outer := p + kind;
    var middle := outer + [SLASH] + hash[..2];
    assert key == middle + [SLASH] + hash;
    Split(middle, hash);
    Split(outer, hash[..2]);
    Grow(p, kind);
  }

  lemma KeySegments(p: Bytes, d: Digest)
    ensures var key := p + CanonicalKey(d);
            && Segment(key) == Hex(d.bytes)
            && SegmentOf(Parent(key)) == Some(Hex(d.bytes)[..2])
            && SegmentOf(ParentOf(Parent(key))) == Some(Segment(p) + CAS)
  {
    HexHasNoSlash(d.bytes);
    KeyParts(p, CAS, Hex(d.bytes));
  }

  /** A key under `cas` names its blob, `cas.v2` is the compressed form, `ac` and `raw` hold
      what is not content-addressed, whatever the client puts before them; an unknown kind is
      more of the client's prefix. */
  lemma KindOfKey(p: Bytes, kind: Bytes, hash: Bytes)
    requires |hash| >= 2 && SLASH !in kind && SLASH !in hash && Segment(p) == []
    ensures ParseKey(p + KeyUnder(kind, hash)) ==
              if kind == Ascii("cas.v2") then Some(Compressed)
              else if kind == Ascii("ac") || kind == Ascii("raw") then Some(NotContentAddressed)
              else if kind != Ascii("cas") && hash[..2] == Ascii("ac") then None
              else CasKey(hash)
  {
    KeyParts(p, kind, hash);
    assert [] + kind == kind;
    KindsDiffer();
    ShardKind(hash[..2]);
    if !IsKind(kind) {
      UnderOther(hash, hash[..2], kind);
    }
  }

  lemma KindsDiffer()
    ensures Ascii("cas.v2") != CAS && Ascii("ac") != CAS && Ascii("raw") != CAS
    ensures Ascii("ac") != Ascii("cas.v2") && Ascii("raw") != Ascii("cas.v2")
  {
    assert CAS[0] == 'c' as int && Ascii("raw")[0] == 'r' as int;
  }

  /** A blob's bare hex, with no directory at all, names it too. */
  lemma BareKey(d: Digest)
    requires d.algo == Sha256
    ensures ParseKey(Hex(d.bytes)) == Some(Cas(d))
  {
    HexHasNoSlash(d.bytes);
    assert LastSlash(Hex(d.bytes)) == -1;
    CasKeyOf(d);
  }

  /** No prefix turns `cas` into another kind. */
  lemma OnlyCas(s: Bytes)
    ensures IsKind(s + CAS) <==> s == []
    ensures s + CAS == CAS <==> s == []
  {
    var t := s + CAS;
    assert t[|t| - 1] == CAS[2] == 's' as int;
    assert Ascii("cas.v2")[5] != 's' as int && Ascii("ac")[1] != 's' as int && Ascii("raw")[2] != 's' as int;
    if s == [] {
      assert t == CAS;
    }
  }

  /** Two hex digits are a kind only when they spell `ac`. */
  lemma ShardKind(shard: Bytes)
    requires |shard| == 2
    ensures IsKind(shard) <==> shard == Ascii("ac")
  {
  }

  lemma UnderCas(hash: Bytes, shard: Bytes)
    requires |shard| == 2 && shard <= hash
    ensures Classify(hash, Some(shard), Some(CAS)) == CasKey(hash)
  {
  }

  lemma UnderOther(hash: Bytes, shard: Bytes, kind: Bytes)
    requires !IsKind(kind)
    ensures Classify(hash, Some(shard), Some(kind)) == if IsKind(shard) then None else CasKey(hash)
  {
  }

  lemma UnderPrefix(hash: Bytes, shard: Bytes, s: Bytes)
    requires |shard| == 2 && shard <= hash
    ensures Classify(hash, Some(shard), Some(s + CAS)) == if s == [] || !IsKind(shard) then CasKey(hash) else None
  {
    OnlyCas(s);
    if s == [] {
      UnderCas(hash, shard);
    } else {
      UnderOther(hash, shard, s + CAS);
    }
  }

  lemma CasKeyOf(d: Digest)
    requires d.algo == Sha256
    ensures CasKey(Hex(d.bytes)) == Some(Cas(d))
  {
    Sha256Exact(Hex(d.bytes), d);
  }

  /** A listed key, under whatever prefix the client puts before it, names its blob exactly
      when the prefix ends its last segment or the hex does not start with `ac`: glued to other
      text, `cas` is no longer a kind, and then the shard `ac` is taken for one. Otherwise it
      names nothing. */
  lemma ListedKeyParses(p: Bytes, d: Digest)
    requires d.algo == Sha256
    ensures ParseKey(p + CanonicalKey(d)) ==
              if Segment(p) == [] || Hex(d.bytes)[..2] != Ascii("ac") then Some(Cas(d)) else None
  {
    KeySegments(p, d);
    UnderPrefix(Hex(d.bytes), Hex(d.bytes)[..2], Segment(p));
    ShardKind(Hex(d.bytes)[..2]);
    CasKeyOf(d);
  }

  lemma OneSegment()
    ensures Segment(Ascii("x")) == Ascii("x")
  {
  }

  lemma StartsWithAc(d: Digest)
    requires d.bytes[0] == 0xac
    ensures Hex(d.bytes)[..2] == Ascii("ac")
  {
    assert Hex(d.bytes)[..2] == [HexDigit(0xac / 16), HexDigit(0xac % 16)];
  }

  /** So under a prefix that does not end its last segment no blob whose hash
      starts with the byte 0xac can be named. */
  lemma GluedKeyLost(p: Bytes, d: Digest)
    requires d.algo == Sha256 && d.bytes[0] == 0xac && Segment(p) != []
    ensures ParseKey(p + CanonicalKey(d)) == None
  {
    StartsWithAc(d);
    ListedKeyParses(p, d);
  }

  lemma GluedUnderX(p: Bytes, d: Digest)
    requires p == Ascii("x") && d.algo == Sha256 && d.bytes[0] == 0xac
    ensures ParseKey(p + CanonicalKey(d)) == None
  {
    OneSegment();
    GluedKeyLost(p, d);
  }

  lemma KeysDiffer(d: Digest, e: Digest)
    requires CanonicalKey(d) == CanonicalKey(e)
    ensures d.bytes == e.bytes
  {
    KeySegments([], d);
    KeySegments([], e);
    assert [] + CanonicalKey(d) == CanonicalKey(d) && [] + CanonicalKey(e) == CanonicalKey(e);
    HexRoundTrip(d.bytes);
    HexRoundTrip(e.bytes);
  }
}
