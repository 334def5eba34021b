/** External data representation (RFC 4506): big-endian words, padded opaque data, structures
    and discriminated unions. Readers are lenient, so a codec here is wired when the reader
    takes back whatever the writer put down, followed by anything, and everything written is
    a multiple of four bytes. The word codec is a parameter of the others. */
module Xdr {
  import opened Core
  import opened Words
  import opened Canonical

  type u32 = n: int | 0 <= n < 0x1_0000_0000

  ghost predicate Takes<T(!new)>(c: Codec<T>, x: T, tail: Bytes) {
    c.read(c.write(x) + tail) == Got(x, tail)
  }

  predicate Quads(b: Bytes) {
    |b| % 4 == 0
  }

  lemma QuadsJoin(a: Bytes, b: Bytes)
    requires Quads(a) && Quads(b)
    ensures Quads(a + b)
  {
  }

  ghost predicate Wired<T(!new)>(c: Codec<T>) {
    && (forall x, tail :: c.ok(x) ==> Takes(c, x, tail))
    && (forall x :: c.ok(x) ==> Quads(c.write(x)))
  }

  lemma WiredTakes<T(!new)>(c: Codec<T>, x: T, tail: Bytes)
    requires Wired(c) && c.ok(x)
    ensures c.read(c.write(x) + tail) == Got(x, tail) && |c.write(x)| % 4 == 0
  {
    assert Takes(c, x, tail) && Quads(c.write(x));
  }

  /** Nothing written begins anything else written. */
  lemma PrefixFree<T(!new)>(c: Codec<T>, x: T, y: T)
    requires Wired(c) && c.ok(x) && c.ok(y) && c.write(x) <= c.write(y)
    ensures x == y
  {
    var rest := c.write(y)[|c.write(x)|..];
    assert c.write(x) + rest == c.write(y) == c.write(y) + [];
    assert Takes(c, x, rest) && Takes(c, y, []);
  }

  // ---- Words ----

  function ReadWord(b: Bytes): Read<u32> {
    if |b| < 4 then Bad
    else
      Widths();
      Got(FromBE(b[..4]), b[4..])
  }

  function Word32(): Codec<u32> {
    Codec((n: u32) => true, (n: u32) => BE(n, 4), (b: Bytes) => ReadWord(b))
  }

  /** Every word can be written. */
  ghost predicate WordCodec(w: Codec<u32>) {
    Wired(w) && forall n :: w.ok(n)
  }

  lemma Word32Wired()
    ensures WordCodec(Word32())
  {
    forall n: u32, tail: Bytes ensures Takes(Word32(), n, tail) {
      Widths();
      BERoundTrip(n, 4);
      assert (BE(n, 4) + tail)[..4] == BE(n, 4) && (BE(n, 4) + tail)[4..] == tail;
    }
  }

  lemma Word32Exact()
    ensures Exact(Word32())
  {
    var w := Word32();
    forall b, n: u32, rest ensures w.read(b) == Got(n, rest) <==> w.ok(n) && b == w.write(n) + rest {
      Widths();
      BERoundTrip(n, 4);
      assert (BE(n, 4) + rest)[..4] == BE(n, 4) && (BE(n, 4) + rest)[4..] == rest;
      if |b| >= 4 {
        BECanonical(b[..4]);
        assert b == b[..4] + b[4..];
      }
    }
  }

  /** Another view of what a codec carries; reading may refuse. */
  lemma NarrowWired<A(!new), B(!new)>(c: Codec<A>, ok: B -> bool, from: B -> A, to: A -> Option<B>)
    requires Wired(c) && forall y :: ok(y) ==> c.ok(from(y)) && to(from(y)) == Some(y)
    ensures Wired(Narrow(c, ok, from, to))
  {
    var d := Narrow(c, ok, from, to);
    forall y, tail | d.ok(y) ensures Takes(d, y, tail) {
      assert Takes(c, from(y), tail);
    }
  }

  /** A structure's fields in turn. */
  lemma PairWired<A(!new), B(!new)>(a: Codec<A>, b: Codec<B>)
    requires Wired(a) && Wired(b)
    ensures Wired(Pair(a, b))
  {
    var c := Pair(a, b);
    forall p: (A, B), tail | c.ok(p) ensures Takes(c, p, tail) {
      assert c.write(p) + tail == a.write(p.0) + (b.write(p.1) + tail);
      assert Takes(a, p.0, b.write(p.1) + tail) && Takes(b, p.1, tail);
    }
    forall p: (A, B) | c.ok(p) ensures Quads(c.write(p)) {
      QuadsJoin(a.write(p.0), b.write(p.1));
    }
  }

  // ---- Variable-length opaque data ----

  function Pad(n: nat): nat {
    (4 - n % 4) % 4
  }

  lemma PadFills(n: nat)
    ensures Pad(n) < 4 && (n + Pad(n)) % 4 == 0
  {
  }

  function Zeros(n: nat): (z: Bytes)
    ensures |z| == n
  {
    seq(n, _ => 0)
  }

  /** The length, the bytes and up to three bytes of padding, whatever those hold. */
  function Opaque(w: Codec<u32>): Codec<Bytes> {
    Codec((x: Bytes) => |x| < 0xFFFF_FFFF,
          (x: Bytes) => if |x| < 0xFFFF_FFFF then w.write(|x|) + (x + Zeros(Pad(|x|))) else [],
          (b: Bytes) =>
            match w.read(b)
            case Bad => Bad
            case Got(n, rest) =>
              if |rest| < n + Pad(n) then Bad else Got(rest[..n], rest[n + Pad(n)..]))
  }

  /** Any padding reads the same. */
  lemma AnyPadding(w: Codec<u32>, x: Bytes, pad: Bytes, tail: Bytes)
    requires WordCodec(w) && |x| < 0xFFFF_FFFF && |pad| == Pad(|x|)
    ensures Opaque(w).read(w.write(|x|) + (x + pad) + tail) == Got(x, tail)
  {
    var body := x + pad + tail;
    assert w.write(|x|) + (x + pad) + tail == w.write(|x|) + body;
    assert Takes(w, |x|, body);
    assert body[..|x|] == x && body[|x| + |pad|..] == tail;
  }

  lemma OpaqueWired(w: Codec<u32>)
    requires WordCodec(w)
    ensures Wired(Opaque(w))
  {
    var c := Opaque(w);
    forall x: Bytes, tail: Bytes | c.ok(x) ensures Takes(c, x, tail) {
      AnyPadding(w, x, Zeros(Pad(|x|)), tail);
    }
    forall x: Bytes | c.ok(x) ensures Quads(c.write(x)) {
      PadFills(|x|);
      QuadsJoin(w.write(|x|), x + Zeros(Pad(|x|)));
    }
  }

  // ---- Unions ----

  function Lefts<A, B>(r: Read<A>): Read<Either<A, B>> {
    match r case Bad => Bad case Got(x, rest) => Got(Left(x), rest)
  }

  function Rights<A, B>(r: Read<B>): Read<Either<A, B>> {
    match r case Bad => Bad case Got(y, rest) => Got(Right(y), rest)
  }

  /** A word chooses what follows; on any other word the value is left as it was. */
  function Union<A, B>(w: Codec<u32>, a: Codec<A>, b: Codec<B>, other: Either<A, B>): Codec<Either<A, B>> {
    Codec((e: Either<A, B>) => match e case Left(x) => a.ok(x) case Right(y) => b.ok(y),
          (e: Either<A, B>) => match e case Left(x) => w.write(0) + a.write(x) case Right(y) => w.write(1) + b.write(y),
          (bs: Bytes) =>
            match w.read(bs)
            case Bad => Bad
            case Got(c, rest) =>
              if c == 0 then Lefts(a.read(rest)) else if c == 1 then Rights(b.read(rest)) else Got(other, rest))
  }

  lemma UnionWired<A(!new), B(!new)>(w: Codec<u32>, a: Codec<A>, b: Codec<B>, other: Either<A, B>)
    requires WordCodec(w) && Wired(a) && Wired(b)
    ensures Wired(Union(w, a, b, other))
  {
    var c := Union(w, a, b, other);
    forall e, tail | c.ok(e) ensures Takes(c, e, tail) && Quads(c.write(e)) {
      match e
      case Left(x) =>
        assert c.write(e) + tail == w.write(0) + (a.write(x) + tail);
        assert Takes(w, 0, a.write(x) + tail) && Takes(a, x, tail);
        QuadsJoin(w.write(0), a.write(x));
      case Right(y) =>
        assert c.write(e) + tail == w.write(1) + (b.write(y) + tail);
        assert Takes(w, 1, b.write(y) + tail) && Takes(b, y, tail);
        QuadsJoin(w.write(1), b.write(y));
    }
    forall e | c.ok(e) ensures Quads(c.write(e)) {
      assert Takes(c, e, []);
    }
  }

  /** The union switched by a boolean, where any non-zero word is true. */
  function Optional<T>(w: Codec<u32>, c: Codec<T>): Codec<Option<T>> {
    Codec((o: Option<T>) => match o case None => true case Some(x) => c.ok(x),
          (o: Option<T>) => match o case None => w.write(0) case Some(x) => w.write(1) + c.write(x),
          (bs: Bytes) =>
            match w.read(bs)
            case Bad => Bad
            case Got(n, rest) =>
              if n == 0 then Got(None, rest)
              else match c.read(rest)
                case Bad => Bad
                case Got(x, rest) => Got(Some(x), rest))
  }

  lemma OptionalWired<T(!new)>(w: Codec<u32>, c: Codec<T>)
    requires WordCodec(w) && Wired(c)
    ensures Wired(Optional(w, c))
  {
    var d := Optional(w, c);
    forall o, tail | d.ok(o) ensures Takes(d, o, tail) && Quads(d.write(o)) {
      match o
      case None =>
        assert Takes(w, 0, tail);
      case Some(x) =>
        assert d.write(o) + tail == w.write(1) + (c.write(x) + tail);
        assert Takes(w, 1, c.write(x) + tail) && Takes(c, x, tail);
        QuadsJoin(w.write(1), c.write(x));
    }
    forall o | d.ok(o) ensures Quads(d.write(o)) {
      assert Takes(d, o, []);
    }
  }

  // ---- Lists of words ----

  function WriteWords(w: Codec<u32>, xs: seq<u32>): Bytes {
    if |xs| == 0 then [] else w.write(xs[0]) + WriteWords(w, xs[1..])
  }

  /** The next `n` words. */
  function ReadWords(w: Codec<u32>, b: Bytes, n: nat): Read<seq<u32>>
    decreases n
  {
    if n == 0 then Got([], b)
    else match w.read(b)
      case Bad => Bad
      case Got(x, rest) =>
        match ReadWords(w, rest, n - 1)
        case Bad => Bad
        case Got(xs, rest) => Got([x] + xs, rest)
  }

  function WordList(w: Codec<u32>): Codec<seq<u32>> {
    Codec((xs: seq<u32>) => |xs| < 0xFFFF_FFFF,
          (xs: seq<u32>) => if |xs| < 0xFFFF_FFFF then w.write(|xs|) + WriteWords(w, xs) else [],
          (b: Bytes) =>
            match w.read(b)
            case Bad => Bad
            case Got(n, rest) => ReadWords(w, rest, n))
  }

  lemma {:induction false} WordsReadBack(w: Codec<u32>, xs: seq<u32>, tail: Bytes)
    requires WordCodec(w)
    ensures ReadWords(w, WriteWords(w, xs) + tail, |xs|) == Got(xs, tail)
    ensures Quads(WriteWords(w, xs))
  {
    if |xs| == 0 {
      assert [] + tail == tail;
    } else {
      var more := WriteWords(w, xs[1..]);
      assert WriteWords(w, xs) + tail == w.write(xs[0]) + (more + tail);
      assert Takes(w, xs[0], more + tail);
      WordsReadBack(w, xs[1..], tail);
      assert [xs[0]] + xs[1..] == xs;
      QuadsJoin(w.write(xs[0]), more);
    }
  }

  lemma WordListWired(w: Codec<u32>)
    requires WordCodec(w)
    ensures Wired(WordList(w))
  {
    var c := WordList(w);
    forall xs: seq<u32>, tail: Bytes | c.ok(xs) ensures Takes(c, xs, tail) && Quads(c.write(xs)) {
      assert c.write(xs) + tail == w.write(|xs|) + (WriteWords(w, xs) + tail);
      assert Takes(w, |xs|, WriteWords(w, xs) + tail);
      WordsReadBack(w, xs, tail);
      QuadsJoin(w.write(|xs|), WriteWords(w, xs));
    }
    forall xs: seq<u32> | c.ok(xs) ensures Quads(c.write(xs)) {
      assert Takes(c, xs, []);
    }
  }

  lemma {:induction false} WriteWordsSnoc(w: Codec<u32>, xs: seq<u32>, x: u32)
    ensures WriteWords(w, xs + [x]) == WriteWords(w, xs) + w.write(x)
  {
    if |xs| == 0 {
      assert [x][1..] == [] && w.write(x) + [] == w.write(x);
    } else {
      WriteWordsSnoc(w, xs[1..], x);
      assert (xs + [x])[1..] == xs[1..] + [x];
    }
  }

  method SerializeList(w: Codec<u32>, xs: seq<u32>) returns (dest: Bytes)
    requires |xs| < 0xFFFF_FFFF
    ensures dest == WordList(w).write(xs)
  {
    dest := w.write(|xs|);
    for i := 0 to |xs|
      invariant dest == w.write(|xs|) + WriteWords(w, xs[..i])
    {
      WriteWordsSnoc(w, xs[..i], xs[i]);
      assert xs[..i] + [xs[i]] == xs[..i + 1];
      dest := dest + w.write(xs[i]);
    }
    assert xs[..|xs|] == xs;
  }

  function Prepend(done: seq<u32>, r: Read<seq<u32>>): Read<seq<u32>> {
    match r case Bad => Bad case Got(xs, rest) => Got(done + xs, rest)
  }

  method DeserializeList(w: Codec<u32>, src: Bytes) returns (r: Read<seq<u32>>)
    ensures r == WordList(w).read(src)
  {
    match w.read(src)
    case Bad => return Bad;
    case Got(n, body) =>
      var xs, rest := [], body;
      assert forall s: seq<u32> :: [] + s == s;
      for i := 0 to n
        invariant ReadWords(w, body, n) == Prepend(xs, ReadWords(w, rest, n - i))
      {
        match w.read(rest)
        case Bad => return Bad;
        case Got(x, more) =>
          assert forall s: seq<u32> :: xs + ([x] + s) == xs + [x] + s;
          xs, rest := xs + [x], more;
      }
      assert xs + [] == xs;
      return Got(xs, rest);
  }

  // ---- Which accepted bytes are what the value is written as ----

  /** A check that can be made on bytes before, or while, reading them. */
  type Guard = Bytes -> bool

  /** What is read from `b` is written as exactly the bytes read, if the guard passes and only
      then. Bytes the reader refuses are of no concern. */
  ghost predicate Tells<T(!new)>(c: Codec<T>, guard: Guard, b: Bytes) {
    match c.read(b)
    case Bad => true
    case Got(x, rest) => guard(b) <==> c.ok(x) && b == c.write(x) + rest
  }

  ghost predicate Guards<T(!new)>(guard: Guard, c: Codec<T>) {
    forall b :: Tells(c, guard, b)
  }

  /** Nothing to check. */
  function Any(): Guard {
    b => true
  }

  lemma AnyGuards<T(!new)>(c: Codec<T>)
    requires Exact(c)
    ensures Guards(Any(), c)
  {
    forall b ensures Tells(c, Any(), b) {
      match c.read(b)
      case Bad =>
      case Got(x, rest) =>
        assert c.read(b) == Got(x, rest) <==> c.ok(x) && b == c.write(x) + rest;
    }
  }

  /** The first part passes its guard, and what is left after it the other. */
  function Then<A>(a: Codec<A>, first: Guard, second: Guard): Guard {
    b => first(b) && match a.read(b) case Bad => false case Got(_, rest) => second(rest)
  }

  lemma ThenTells<A(!new), B(!new)>(a: Codec<A>, b: Codec<B>, first: Guard, second: Guard, bs: Bytes, x: A, mid: Bytes)
    requires Wired(a) && a.read(bs) == Got(x, mid) && Tells(a, first, bs) && Tells(b, second, mid)
    ensures Tells(Pair(a, b), Then(a, first, second), bs)
  {
    match b.read(mid)
    case Bad =>
    case Got(y, rest) =>
      assert Pair(a, b).write((x, y)) + rest == a.write(x) + (b.write(y) + rest);
      assert a.ok(x) ==> Takes(a, x, b.write(y) + rest);
  }

  lemma ThenGuards<A(!new), B(!new)>(a: Codec<A>, b: Codec<B>, first: Guard, second: Guard)
    requires Wired(a) && Guards(first, a) && Guards(second, b)
    ensures Guards(Then(a, first, second), Pair(a, b))
  {
    forall bs ensures Tells(Pair(a, b), Then(a, first, second), bs) {
      match a.read(bs)
      case Bad =>
      case Got(x, mid) =>
        assert Tells(a, first, bs) && Tells(b, second, mid);
        ThenTells(a, b, first, second, bs, x, mid);
    }
  }

  /** A view that loses nothing of what it accepts passes the same guard. */
  lemma NarrowGuards<A(!new), B(!new)>(c: Codec<A>, ok: B -> bool, from: B -> A, to: A -> Option<B>, guard: Guard)
    requires Guards(guard, c)
    requires forall x :: to(x).Some? ==> from(to(x).value) == x && (ok(to(x).value) <==> c.ok(x))
    ensures Guards(guard, Narrow(c, ok, from, to))
  {
    forall b ensures Tells(Narrow(c, ok, from, to), guard, b) {
      assert Tells(c, guard, b);
    }
  }

  /** The length is one the writer can put down, and the padding is zero. */
  function PadGuard(w: Codec<u32>): Guard {
    b => match w.read(b)
         case Bad => false
         case Got(n, rest) => n < 0xFFFF_FFFF && n + Pad(n) <= |rest| && rest[n..n + Pad(n)] == Zeros(Pad(n))
  }

  lemma PadTells(w: Codec<u32>, b: Bytes, n: u32, rest: Bytes)
    requires w.read(b) == Got(n, rest) && b == w.write(n) + rest
    ensures Tells(Opaque(w), PadGuard(w), b)
  {
    if n + Pad(n) <= |rest| && n < 0xFFFF_FFFF {
      PadSplit(w, b, n, rest);
    }
  }

  lemma PadGuards(w: Codec<u32>)
    requires WordCodec(w) && Exact(w)
    ensures Guards(PadGuard(w), Opaque(w))
  {
    forall b ensures Tells(Opaque(w), PadGuard(w), b) {
      match w.read(b)
      case Bad =>
      case Got(n, rest) => PadTells(w, b, n, rest);
    }
  }

  lemma PadSplit(w: Codec<u32>, b: Bytes, n: u32, rest: Bytes)
    requires n + Pad(n) <= |rest| && n < 0xFFFF_FFFF && b == w.write(n) + rest
    ensures rest[n..n + Pad(n)] == Zeros(Pad(n)) <==>
              b == w.write(n) + (rest[..n] + Zeros(Pad(n))) + rest[n + Pad(n)..]
  {
    var x, pad, tail := rest[..n], rest[n..n + Pad(n)], rest[n + Pad(n)..];
    assert rest == x + pad + tail;
    var other := w.write(n) + (x + Zeros(Pad(n))) + tail;
    var k := |w.write(n)| + n;
    assert b[k..k + Pad(n)] == pad && other[k..k + Pad(n)] == Zeros(Pad(n));
  }

  /** The word is one of the two arms', and that arm passes its guard. */
  function Arms(w: Codec<u32>, left: Guard, right: Guard): Guard {
    b => match w.read(b)
         case Bad => false
         case Got(n, rest) => n <= 1 && if n == 0 then left(rest) else right(rest)
  }

  lemma LeftTells<A(!new), B(!new)>(w: Codec<u32>, a: Codec<A>, b: Codec<B>, other: Either<A, B>, left: Guard, right: Guard,
                                    bs: Bytes, rest: Bytes)
    requires WordCodec(w) && w.read(bs) == Got(0, rest) && bs == w.write(0) + rest && Tells(a, left, rest)
    ensures Tells(Union(w, a, b, other), Arms(w, left, right), bs)
  {
    match a.read(rest)
    case Bad =>
    case Got(x, tail) =>
      assert w.write(0) + a.write(x) + tail == w.write(0) + (a.write(x) + tail);
      assert Takes(w, 0, a.write(x) + tail);
  }

  lemma RightTells<A(!new), B(!new)>(w: Codec<u32>, a: Codec<A>, b: Codec<B>, other: Either<A, B>, left: Guard, right: Guard,
                                     bs: Bytes, rest: Bytes)
    requires WordCodec(w) && w.read(bs) == Got(1, rest) && bs == w.write(1) + rest && Tells(b, right, rest)
    ensures Tells(Union(w, a, b, other), Arms(w, left, right), bs)
  {
    match b.read(rest)
    case Bad =>
    case Got(y, tail) =>
      assert w.write(1) + b.write(y) + tail == w.write(1) + (b.write(y) + tail);
      assert Takes(w, 1, b.write(y) + tail);
  }

  /** An unknown word is written by neither arm. */
  lemma OtherTells<A(!new), B(!new)>(w: Codec<u32>, a: Codec<A>, b: Codec<B>, other: Either<A, B>, left: Guard, right: Guard,
                                     bs: Bytes, n: u32, rest: Bytes)
    requires WordCodec(w) && w.read(bs) == Got(n, rest) && n > 1
    ensures Tells(Union(w, a, b, other), Arms(w, left, right), bs)
  {
    var word, body := if other.Left? then 0 else 1, if other.Left? then a.write(other.left) else b.write(other.right);
    assert w.write(word) + body + rest == w.write(word) + (body + rest);
    assert Takes(w, word, body + rest);
  }

  lemma ArmsGuard<A(!new), B(!new)>(w: Codec<u32>, a: Codec<A>, b: Codec<B>, other: Either<A, B>, left: Guard, right: Guard)
    requires WordCodec(w) && Exact(w) && Guards(left, a) && Guards(right, b)
    ensures Guards(Arms(w, left, right), Union(w, a, b, other))
  {
    forall bs ensures Tells(Union(w, a, b, other), Arms(w, left, right), bs) {
      match w.read(bs)
      case Bad =>
      case Got(n, rest) =>
        assert bs == w.write(n) + rest;
        assert Tells(a, left, rest) && Tells(b, right, rest);
        if n == 0 {
          LeftTells(w, a, b, other, left, right, bs, rest);
        } else if n == 1 {
          RightTells(w, a, b, other, left, right, bs, rest);
        } else {
          OtherTells(w, a, b, other, left, right, bs, n, rest);
        }
    }
  }
}
