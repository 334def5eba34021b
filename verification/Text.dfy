/** Hex, and the `algo:hex` text form of digests. Text is its bytes. */
module Text {
  import opened Core
  import opened Digests

  // ---- Hex ----

  type Nibble = x: int | 0 <= x < 16

  function HexDigit(v: Nibble): byte {
    if v < 10 then '0' as int + v else 'a' as int + (v - 10)
  }

  function HexValue(c: byte): Option<Nibble> {
    if '0' as int <= c <= '9' as int then Some(c - '0' as int)
    else if 'a' as int <= c <= 'f' as int then Some(c - 'a' as int + 10)
    else if 'A' as int <= c <= 'F' as int then Some(c - 'A' as int + 10)
    else None
  }

  predicate LowerHex(c: byte) {
    '0' as int <= c <= '9' as int || 'a' as int <= c <= 'f' as int
  }

  function Hex(b: Bytes): (t: Bytes)
    ensures |t| == 2 * |b|
  {
    if |b| == 0 then [] else [HexDigit(b[0] / 16), HexDigit(b[0] % 16)] + Hex(b[1..])
  }

  /** Two characters a byte, the high half first. */
  lemma {:induction false} HexAt(b: Bytes, i: nat)
    requires i < |b|
    ensures Hex(b)[2 * i] == "0123456789abcdef"[b[i] / 16] as int
    ensures Hex(b)[2 * i + 1] == "0123456789abcdef"[b[i] % 16] as int
  {
    if i > 0 {
      HexAt(b[1..], i - 1);
    } else {
      Alphabet(b[0] / 16);
      Alphabet(b[0] % 16);
    }
  }

  lemma Alphabet(v: Nibble)
    ensures HexDigit(v) == "0123456789abcdef"[v] as int
  {
  }

  function Joined(high: Nibble, low: Nibble): byte {
    high * 16 + low
  }

  function Pairs(t: Bytes): Option<Bytes>
    requires |t| % 2 == 0
  {
    if |t| == 0 then Some([])
    else
      var high, low, rest := HexValue(t[0]), HexValue(t[1]), Pairs(t[2..]);
      if high.None? || low.None? || rest.None? then None
      else Some([Joined(high.value, low.value)] + rest.value)
  }

  function FromHex(t: Bytes): Option<Bytes> {
    if |t| % 2 != 0 then None else Pairs(t)
  }

  /** Upper-case hex digits in lower case. */
  function Fold(t: Bytes): (r: Bytes)
    ensures |r| == |t|
  {
    seq(|t|, i requires 0 <= i < |t| => FoldChar(t[i]))
  }

  function FoldChar(c: byte): byte {
    if 'A' as int <= c <= 'F' as int then c + 32 else c
  }

  lemma DigitExact(c: byte, v: Nibble)
    ensures HexValue(c) == Some(v) <==> FoldChar(c) == HexDigit(v)
  {
  }

  lemma {:induction false} PairsExact(t: Bytes, b: Bytes)
    requires |t| % 2 == 0
    ensures Pairs(t) == Some(b) <==> Fold(t) == Hex(b)
    decreases |t|
  {
    if |t| > 0 && |b| > 0 {
      PairsExact(t[2..], b[1..]);
      DigitExact(t[0], b[0] / 16);
      DigitExact(t[1], b[0] % 16);
      assert Fold(t) == [FoldChar(t[0]), FoldChar(t[1])] + Fold(t[2..]);
      assert b == [b[0]] + b[1..];
      SameSplit(FoldChar(t[0]), FoldChar(t[1]), Fold(t[2..]), HexDigit(b[0] / 16), HexDigit(b[0] % 16), Hex(b[1..]));
    }
  }

  lemma SameSplit(a: byte, b: byte, t: Bytes, c: byte, d: byte, u: Bytes)
    ensures [a, b] + t == [c, d] + u <==> a == c && b == d && t == u
  {
    assert ([a, b] + t)[2..] == t && ([c, d] + u)[2..] == u;
  }

  /** Exactly the hex of `b`, in either case, decodes to `b`. */
  lemma HexExact(t: Bytes, b: Bytes)
    ensures FromHex(t) == Some(b) <==> Fold(t) == Hex(b)
  {
    if |t| % 2 == 0 {
      PairsExact(t, b);
    }
  }

  lemma {:induction false} HexIsLower(b: Bytes)
    ensures forall i :: 0 <= i < |Hex(b)| ==> LowerHex(Hex(b)[i])
  {
    if |b| > 0 {
      HexIsLower(b[1..]);
    }
  }

  lemma FoldLower(t: Bytes)
    requires forall i :: 0 <= i < |t| ==> LowerHex(t[i])
    ensures Fold(t) == t
  {
  }

  lemma HexRoundTrip(b: Bytes)
    ensures FromHex(Hex(b)) == Some(b)
  {
    HexIsLower(b);
    FoldLower(Hex(b));
    HexExact(Hex(b), b);
  }

  lemma {:induction false} HexSnoc(b: Bytes, x: byte)
    ensures Hex(b + [x]) == Hex(b) + [HexDigit(x / 16), HexDigit(x % 16)]
  {
    if |b| > 0 {
      HexSnoc(b[1..], x);
      assert (b + [x])[1..] == b[1..] + [x];
    }
  }

  function Glue(front: Bytes, rest: Option<Bytes>): Option<Bytes> {
    if rest.None? then None else Some(front + rest.value)
  }

  /** Decoding one more pair moves it from what is left to what is done. */
  lemma GlueStep(t: Bytes, k: nat, front: Bytes)
    requires |t| % 2 == 0 && 2 * k < |t|
    ensures Glue(front, Pairs(t[2 * k..])) == (
        var high, low := HexValue(t[2 * k]), HexValue(t[2 * k + 1]);
        if high.None? || low.None? then None
        else Glue(front + [Joined(high.value, low.value)], Pairs(t[2 * k + 2..])))
  {
    assert t[2 * k..][2..] == t[2 * k + 2..];
    var rest := Pairs(t[2 * k + 2..]);
    if rest.Some? {
      assert forall x: byte :: front + ([x] + rest.value) == front + [x] + rest.value;
    }
  }

  method HexEncode(bytes: Bytes) returns (s: Bytes)
    ensures s == Hex(bytes)
  {
    s := [];
    for i := 0 to |bytes|
      invariant s == Hex(bytes[..i])
    {
      s := s + [HexDigit(bytes[i] / 16)];
      s := s + [HexDigit(bytes[i] % 16)];
      HexSnoc(bytes[..i], bytes[i]);
      assert bytes[..i] + [bytes[i]] == bytes[..i + 1];
    }
    assert bytes[..|bytes|] == bytes;
  }

  method HexDecode(s: Bytes) returns (out: Option<Bytes>)
    ensures out == FromHex(s)
  {
    if |s| % 2 != 0 {
      return None;
    }
    var buffer: Bytes := [];
    assert s[2 * 0..] == s && forall b: Bytes :: [] + b == b;
    for k := 0 to |s| / 2
      invariant Pairs(s) == Glue(buffer, Pairs(s[2 * k..]))
    {
      GlueStep(s, k, buffer);
      var high, low := HexValue(s[2 * k]), HexValue(s[2 * k + 1]);
      if high.None? || low.None? {
        return None;
      }
      buffer := buffer + [Joined(high.value, low.value)];
    }
    assert s[2 * (|s| / 2)..] == [] && buffer + [] == buffer;
    return Some(buffer);
  }

  // ---- Digests ----

  const COLON: byte := ':' as int

  function Name(a: Algo): Bytes {
    match a case Blake3 => Ascii("blake3") case Sha256 => Ascii("sha2-256")
  }

  function FromName(t: Bytes): Option<Algo> {
    if t == Ascii("blake3") then Some(Blake3) else if t == Ascii("sha2-256") then Some(Sha256) else None
  }

  function Print(d: Digest): Bytes {
    Name(d.algo) + [COLON] + Hex(d.bytes)
  }

  /** The index of the first separator, or the length. */
  function Separator(t: Bytes): (n: nat)
    ensures n <= |t|
    ensures n < |t| ==> t[n] == COLON
    ensures forall m :: 0 <= m < n ==> t[m] != COLON
  {
    if |t| == 0 || t[0] == COLON then 0 else 1 + Separator(t[1..])
  }

  function Parse(t: Bytes): Result<Digest, ParseError> {
    var n := Separator(t);
    if n == |t| then Err(MissingSeparator)
    else match FromName(t[..n])
      case None => Err(UnknownAlgo(t[..n]))
      case Some(algo) =>
        match FromHex(t[n + 1..])
        case None => Err(BadHex)
        case Some(bytes) =>
          if |bytes| != DIGEST_LEN then Err(WrongLength(DIGEST_LEN, |bytes|)) else Ok(DigestValue(algo, bytes))
  }

  lemma NameHasNoColon(a: Algo)
    ensures COLON !in Name(a) && FromName(Name(a)) == Some(a)
  {
    assert Ascii("blake3")[0] != Ascii("sha2-256")[0];
  }

  lemma SeparatorAt(name: Bytes, rest: Bytes)
    requires COLON !in name
    ensures Separator(name + [COLON] + rest) == |name|
  {
    var t := name + [COLON] + rest;
    assert forall m | 0 <= m < |name| :: t[m] == name[m];
    assert t[|name|] == COLON;
  }

  lemma ParsedShape(t: Bytes, d: Digest)
    requires Parse(t) == Ok(d)
    ensures |t| > |Name(d.algo)| && t[..|Name(d.algo)| + 1] == Name(d.algo) + [COLON]
  {
    var n := Separator(t);
    NameOf(t[..n], d.algo);
    assert t[..n + 1] == t[..n] + [COLON];
  }

  /** A text parses to `d` exactly when it is `d`'s algorithm name, a colon and its hex in
      either case. */
  lemma ParseExact(t: Bytes, d: Digest)
    ensures Parse(t) == Ok(d) <==>
      |t| > |Name(d.algo)| && t[..|Name(d.algo)| + 1] == Name(d.algo) + [COLON] && Fold(t[|Name(d.algo)| + 1..]) == Hex(d.bytes)
  {
    var k := |Name(d.algo)|;
    NameHasNoColon(d.algo);
    if |t| > k && t[..k + 1] == Name(d.algo) + [COLON] {
      assert t == Name(d.algo) + [COLON] + t[k + 1..];
      SeparatorAt(Name(d.algo), t[k + 1..]);
      assert t[..k] == Name(d.algo);
      HexExact(t[k + 1..], d.bytes);
    }
    if Parse(t) == Ok(d) {
      ParsedShape(t, d);
    }
  }

  /** Behind an algorithm's name and a colon, exactly a digest's hex in either case is one of
      that algorithm. */
  lemma ParseNamed(a: Algo, x: Bytes, d: Digest)
    ensures Parse(Name(a) + [COLON] + x) == Ok(d) <==> d.algo == a && Fold(x) == Hex(d.bytes)
  {
    var t, k := Name(a) + [COLON] + x, |Name(a)|;
    NameHasNoColon(a);
    SeparatorAt(Name(a), x);
    assert t[..k] == Name(a) && t[k + 1..] == x;
    HexExact(x, d.bytes);
  }

  lemma NameOf(t: Bytes, a: Algo)
    requires FromName(t) == Some(a)
    ensures t == Name(a)
  {
  }

  /** What is printed parses back, so no two digests print alike. */
  lemma PrintRoundTrip(d: Digest)
    ensures Parse(Print(d)) == Ok(d)
  {
    var k := |Name(d.algo)|;
    assert Print(d)[..k + 1] == Name(d.algo) + [COLON];
    assert Print(d)[k + 1..] == Hex(d.bytes);
    HexIsLower(d.bytes);
    FoldLower(Hex(d.bytes));
    ParseExact(Print(d), d);
  }
}
