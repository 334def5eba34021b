/** Strict codecs. A codec pairs a writer with a reader, and is exact when the reader accepts
    the writer's output followed by any tail, and nothing else. Exactness composes, so every
    structured blob built here decodes from exactly one byte string. */
module Canonical {
  import opened Core
  import opened Words
  import opened Digests

  /** What a reader leaves: the value and the bytes after it. */
  datatype Read<+T> = Bad | Got(value: T, rest: Bytes)

  /** `ok` says which values the writer can represent. */
  datatype Codec<!T> = Codec(ok: T -> bool, write: T -> Bytes, read: Bytes -> Read<T>)

  ghost predicate Exact<T(!new)>(c: Codec<T>) {
    forall b, x, rest :: c.read(b) == Got(x, rest) <==> c.ok(x) && b == c.write(x) + rest
  }

  /** Decode a whole buffer: nothing may be left over. */
  function Decode<T>(c: Codec<T>, b: Bytes): Option<T> {
    match c.read(b)
    case Got(x, rest) => if rest == [] then Some(x) else None
    case Bad => None
  }

  lemma DecodeExact<T(!new)>(c: Codec<T>, b: Bytes, x: T)
    requires Exact(c)
    ensures Decode(c, b) == Some(x) <==> c.ok(x) && b == c.write(x)
  {
    assert c.write(x) + [] == c.write(x);
    assert c.read(b) == Got(x, []) <==> c.ok(x) && b == c.write(x) + [];
  }

  // ---- Combinators ----

  /** A fixed run of bytes. */
  function Tag(tag: Bytes): Codec<()> {
    Codec(_ => true, _ => tag,
          b => if |tag| <= |b| && b[..|tag|] == tag then Got((), b[|tag|..]) else Bad)
  }

  lemma TagExact(tag: Bytes)
    ensures Exact(Tag(tag))
  {
    var c := Tag(tag);
    forall b, x, rest ensures c.read(b) == Got(x, rest) <==> c.ok(x) && b == c.write(x) + rest {
      assert x == ();
      if |tag| <= |b| {
        assert b == b[..|tag|] + b[|tag|..];
      }
    }
  }

  /** `n` raw bytes. */
  function Raw(n: nat): Codec<Bytes> {
    Codec(x => |x| == n, x => x, b => if n <= |b| then Got(b[..n], b[n..]) else Bad)
  }

  lemma RawExact(n: nat)
    ensures Exact(Raw(n))
  {
    var c := Raw(n);
    forall b, x, rest ensures c.read(b) == Got(x, rest) <==> c.ok(x) && b == c.write(x) + rest {
      if n <= |b| {
        assert b == b[..n] + b[n..];
      }
    }
  }

  /** One after the other. */
  function Pair<A, B>(a: Codec<A>, b: Codec<B>): Codec<(A, B)> {
    Codec((p: (A, B)) => a.ok(p.0) && b.ok(p.1),
          (p: (A, B)) => a.write(p.0) + b.write(p.1),
          (bs: Bytes) =>
            match a.read(bs)
            case Bad => Bad
            case Got(x, rest) =>
              match b.read(rest)
              case Bad => Bad
              case Got(y, rest) => Got((x, y), rest))
  }

  lemma PairExact<A(!new), B(!new)>(a: Codec<A>, b: Codec<B>)
    requires Exact(a) && Exact(b)
    ensures Exact(Pair(a, b))
  {
    var c := Pair(a, b);
    forall bs, p: (A, B), rest ensures c.read(bs) == Got(p, rest) <==> c.ok(p) && bs == c.write(p) + rest {
      assert c.write(p) + rest == a.write(p.0) + (b.write(p.1) + rest);
      assert b.read(b.write(p.1) + rest) == Got(p.1, rest) <==> b.ok(p.1);
      assert a.read(bs) == Got(p.0, b.write(p.1) + rest) <==> a.ok(p.0) && bs == c.write(p) + rest;
      match a.read(bs)
      case Bad =>
      case Got(x, mid) =>
        assert b.read(mid) == Got(p.1, rest) <==> b.ok(p.1) && mid == b.write(p.1) + rest;
    }
  }

  /** Another view of the same bytes: `to` refuses what no value is written as. */
  function Narrow<A, B>(c: Codec<A>, ok: B -> bool, from: B -> A, to: A -> Option<B>): Codec<B> {
    Codec((y: B) => ok(y),
          (y: B) => c.write(from(y)),
          (bs: Bytes) =>
            match c.read(bs)
            case Bad => Bad
            case Got(x, rest) =>
              match to(x)
              case None => Bad
              case Some(y) => Got(y, rest))
  }

  /** `from` and `to` undo each other on what the codec can write. */
  ghost predicate Inverse<A(!new), B(!new)>(c: Codec<A>, ok: B -> bool, from: B -> A, to: A -> Option<B>) {
    && (forall y :: ok(y) ==> c.ok(from(y)) && to(from(y)) == Some(y))
    && (forall x :: c.ok(x) && to(x).Some? ==> ok(to(x).value) && from(to(x).value) == x)
  }

  lemma NarrowExact<A(!new), B(!new)>(c: Codec<A>, ok: B -> bool, from: B -> A, to: A -> Option<B>)
    requires Exact(c) && Inverse(c, ok, from, to)
    ensures Exact(Narrow(c, ok, from, to))
  {
    var d := Narrow(c, ok, from, to);
    forall bs, y, rest ensures d.read(bs) == Got(y, rest) <==> d.ok(y) && bs == d.write(y) + rest {
      if d.ok(y) && bs == d.write(y) + rest {
        assert c.read(bs) == Got(from(y), rest);
      }
      match c.read(bs)
      case Bad =>
      case Got(x, mid) =>
        assert c.ok(x) && bs == c.write(x) + mid;
    }
  }

  datatype Either<+A, +B> = Left(left: A) | Right(right: B)

  /** A zero or one byte chooses what follows. */
  function Choice<A, B>(a: Codec<A>, b: Codec<B>): Codec<Either<A, B>> {
    Codec((e: Either<A, B>) => match e case Left(x) => a.ok(x) case Right(y) => b.ok(y),
          (e: Either<A, B>) => match e case Left(x) => [0] + a.write(x) case Right(y) => [1] + b.write(y),
          (bs: Bytes) =>
            if |bs| == 0 then Bad
            else if bs[0] == 0 then
              match a.read(bs[1..])
              case Bad => Bad
              case Got(x, rest) => Got(Left(x), rest)
            else if bs[0] == 1 then
              match b.read(bs[1..])
              case Bad => Bad
              case Got(y, rest) => Got(Right(y), rest)
            else Bad)
  }

  lemma ChoiceExact<A(!new), B(!new)>(a: Codec<A>, b: Codec<B>)
    requires Exact(a) && Exact(b)
    ensures Exact(Choice(a, b))
  {
    var c := Choice(a, b);
    forall bs, e, rest ensures c.read(bs) == Got(e, rest) <==> c.ok(e) && bs == c.write(e) + rest {
      match e
      case Left(x) =>
        assert c.write(e) + rest == [0] + (a.write(x) + rest);
        if |bs| > 0 {
          assert bs == [bs[0]] + bs[1..];
          assert a.read(bs[1..]) == Got(x, rest) <==> a.ok(x) && bs[1..] == a.write(x) + rest;
        }
      case Right(y) =>
        assert c.write(e) + rest == [1] + (b.write(y) + rest);
        if |bs| > 0 {
          assert bs == [bs[0]] + bs[1..];
          assert b.read(bs[1..]) == Got(y, rest) <==> b.ok(y) && bs[1..] == b.write(y) + rest;
        }
    }
  }

  // ---- Fields ----

  /** A little-endian word of `w` bytes. */
  function Word(w: nat): Codec<nat> {
    Narrow(Raw(w), (n: nat) => n < Pow256(w), (n: nat) => LE(n, w), (x: Bytes) => Some(FromLE(x)))
  }

  lemma WordExact(w: nat)
    ensures Exact(Word(w))
  {
    RawExact(w);
    forall n: nat | n < Pow256(w) ensures FromLE(LE(n, w)) == n {
      LERoundTrip(n, w);
    }
    forall x: Bytes | |x| == w ensures FromLE(x) < Pow256(w) && LE(FromLE(x), w) == x {
      LECanonical(x);
    }
    NarrowExact(Raw(w), (n: nat) => n < Pow256(w), (n: nat) => LE(n, w), (x: Bytes) => Some(FromLE(x)));
  }

  /** Bytes behind their length. */
  function Sized(w: Codec<nat>): Codec<Bytes> {
    Codec((x: Bytes) => w.ok(|x|),
          (x: Bytes) => w.write(|x|) + x,
          (b: Bytes) =>
            match w.read(b)
            case Bad => Bad
            case Got(n, rest) => if n <= |rest| then Got(rest[..n], rest[n..]) else Bad)
  }

  lemma SizedExact(w: Codec<nat>)
    requires Exact(w)
    ensures Exact(Sized(w))
  {
    var c := Sized(w);
    forall b, x, rest ensures c.read(b) == Got(x, rest) <==> c.ok(x) && b == c.write(x) + rest {
      assert c.write(x) + rest == w.write(|x|) + (x + rest);
      assert w.read(b) == Got(|x|, x + rest) <==> w.ok(|x|) && b == c.write(x) + rest;
      match w.read(b)
      case Bad =>
      case Got(n, mid) =>
        if n <= |mid| {
          assert mid == mid[..n] + mid[n..];
        }
    }
  }

  function Delimited(): Codec<Bytes> {
    Sized(Word(8))
  }

  lemma DelimitedExact()
    ensures Exact(Delimited())
    ensures forall x: Bytes :: Delimited().ok(x) <==> |x| <= U64_MAX
  {
    Widths();
    WordExact(8);
    SizedExact(Word(8));
  }

  function ToBool(x: Bytes): Option<bool> {
    if x == [0] then Some(false) else if x == [1] then Some(true) else None
  }

  function FromBool(x: bool): Bytes {
    if x then [1] else [0]
  }

  function Bool(): Codec<bool> {
    Narrow(Raw(1), _ => true, FromBool, ToBool)
  }

  lemma BoolExact()
    ensures Exact(Bool())
  {
    RawExact(1);
    NarrowExact(Raw(1), (_: bool) => true, FromBool, ToBool);
  }

  function ToDigest(x: Bytes): Option<Digest> {
    match FromMultihash(x) case Ok(d) => Some(d) case Err(_) => None
  }

  /** A digest is its multihash, behind its length. */
  function DigestField(): Codec<Digest> {
    Narrow(Delimited(), _ => true, ToMultihash, ToDigest)
  }

  lemma DigestFieldExact()
    ensures Exact(DigestField())
  {
    DelimitedExact();
    forall d: Digest ensures ToDigest(ToMultihash(d)) == Some(d) {
      MultihashExact(ToMultihash(d), d);
    }
    forall x | ToDigest(x).Some? ensures ToMultihash(ToDigest(x).value) == x {
      MultihashExact(x, ToDigest(x).value);
    }
    NarrowExact(Delimited(), (_: Digest) => true, ToMultihash, ToDigest);
  }

  function ToOpt<T>(e: Either<(), T>): Option<Option<T>> {
    match e case Left(_) => Some(None) case Right(x) => Some(Some(x))
  }

  function FromOpt<T>(o: Option<T>): Either<(), T> {
    match o case None => Left(()) case Some(x) => Right(x)
  }

  function Opt<T>(c: Codec<T>): Codec<Option<T>> {
    Narrow(Choice(Tag([]), c), (o: Option<T>) => o.None? || c.ok(o.value), FromOpt, ToOpt)
  }

  lemma OptExact<T(!new)>(c: Codec<T>)
    requires Exact(c)
    ensures Exact(Opt(c))
  {
    TagExact([]);
    ChoiceExact(Tag([]), c);
    forall e: Either<(), T> ensures FromOpt(ToOpt(e).value) == e {
      assert e.Left? ==> e.left == ();
    }
    NarrowExact(Choice(Tag([]), c), (o: Option<T>) => o.None? || c.ok(o.value), FromOpt, ToOpt);
  }

  // ---- Text ----

  predicate Trail(b: byte) {
    0x80 <= b <= 0xbf
  }

  /** Well-formed UTF-8: no overlong forms, no surrogates, nothing past U+10FFFF. */
  predicate Utf8(b: Bytes) {
    if |b| == 0 then true
    else if b[0] < 0x80 then Utf8(b[1..])
    else if 0xc2 <= b[0] <= 0xdf then |b| >= 2 && Trail(b[1]) && Utf8(b[2..])
    else if 0xe0 <= b[0] <= 0xef then
      && |b| >= 3 && Trail(b[1]) && Trail(b[2])
      && (b[0] == 0xe0 ==> 0xa0 <= b[1]) && (b[0] == 0xed ==> b[1] <= 0x9f)
      && Utf8(b[3..])
    else
      && 0xf0 <= b[0] <= 0xf4 && |b| >= 4 && Trail(b[1]) && Trail(b[2]) && Trail(b[3])
      && (b[0] == 0xf0 ==> 0x90 <= b[1]) && (b[0] == 0xf4 ==> b[1] <= 0x8f)
      && Utf8(b[4..])
  }

  type Path = p: Bytes | Utf8(p) && |p| <= U64_MAX

  function ToPath(x: Bytes): Option<Path> {
    if Utf8(x) && |x| <= U64_MAX then Some(x) else None
  }

  function PathField(): Codec<Path> {
    Narrow(Delimited(), (_: Path) => true, (p: Path) => p, ToPath)
  }

  lemma PathFieldExact()
    ensures Exact(PathField())
  {
    DelimitedExact();
    NarrowExact(Delimited(), (_: Path) => true, (p: Path) => p, ToPath);
  }

  /** Byte-wise lexicographic order, which is how strings compare. */
  predicate Less(a: Bytes, b: Bytes) {
    |b| > 0 && (|a| == 0 || a[0] < b[0] || (a[0] == b[0] && Less(a[1..], b[1..])))
  }

  /** `a` is a proper prefix of `b`, or smaller at the first place where they differ. */
  ghost predicate DiffersAt(a: Bytes, b: Bytes, k: nat) {
    k < |a| && k < |b| && a[..k] == b[..k] && a[k] < b[k]
  }

  lemma {:induction false} LessExact(a: Bytes, b: Bytes)
    ensures Less(a, b) <==> a < b || exists k: nat :: DiffersAt(a, b, k)
    decreases |a|
  {
    if |a| > 0 && |b| > 0 && a[0] == b[0] {
      LessExact(a[1..], b[1..]);
      if a[1..] < b[1..] {
        assert a == [a[0]] + a[1..] && b == [b[0]] + b[1..];
        assert b[..|a|] == [b[0]] + b[1..][..|a| - 1];
      }
      forall k: nat | DiffersAt(a[1..], b[1..], k) ensures DiffersAt(a, b, k + 1) {
        assert a[..k + 1] == [a[0]] + a[1..][..k] && b[..k + 1] == [b[0]] + b[1..][..k];
      }
      forall k: nat | DiffersAt(a, b, k) ensures k > 0 && DiffersAt(a[1..], b[1..], k - 1) {
        assert a[1..][..k - 1] == a[..k][1..] && b[1..][..k - 1] == b[..k][1..];
      }
    } else if |a| > 0 && |b| > 0 {
      if a[0] < b[0] {
        assert DiffersAt(a, b, 0);
      }
      assert forall k: nat | 0 < k <= |a| && k <= |b| :: a[..k][0] != b[..k][0];
    }
  }

  lemma {:induction false} LessTotal(a: Bytes, b: Bytes)
    ensures Less(a, b) || Less(b, a) || a == b
    ensures !(Less(a, b) && Less(b, a)) && !Less(a, a)
    decreases |a|
  {
    if |a| > 0 {
      LessTotal(a[1..], a[1..]);
    }
    if |a| > 0 && |b| > 0 && a[0] == b[0] {
      LessTotal(a[1..], b[1..]);
      assert a == [a[0]] + a[1..] && b == [b[0]] + b[1..];
    }
  }

  lemma {:induction false} LessTransitive(a: Bytes, b: Bytes, c: Bytes)
    requires Less(a, b) && Less(b, c)
    ensures Less(a, c)
  {
    if |a| > 0 && a[0] == b[0] == c[0] {
      LessTransitive(a[1..], b[1..], c[1..]);
    }
  }
}
