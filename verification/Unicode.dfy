/** What well-formed UTF-8 is: the encodings of the Unicode scalar values (section 3 of RFC 3629). */
module Unicode {
  import opened Core
  import opened Canonical

  type Scalar = c: int | 0 <= c < 0x11_0000 && !(0xd800 <= c < 0xe000)

  function Encoded(c: Scalar): (b: Bytes)
    ensures |b| >= 1
  {
    if c < 0x80 then [c]
    else if c < 0x800 then [0xc0 + c / 64, 0x80 + c % 64]
    else if c < 0x1_0000 then [0xe0 + c / 64 / 64, 0x80 + c / 64 % 64, 0x80 + c % 64]
    else [0xf0 + c / 64 / 64 / 64, 0x80 + c / 64 / 64 % 64, 0x80 + c / 64 % 64, 0x80 + c % 64]
  }

  function EncodedAll(cs: seq<Scalar>): Bytes {
    if |cs| == 0 then [] else Encoded(cs[0]) + EncodedAll(cs[1..])
  }

  lemma HeadFits(c: Scalar, rest: Bytes)
    ensures Utf8(Encoded(c) + rest) <==> Utf8(rest)
  {
    var b := Encoded(c) + rest;
    assert b[|Encoded(c)|..] == rest;
    forall i | 0 <= i < |Encoded(c)| ensures b[i] == Encoded(c)[i] {
    }
  }

  lemma {:induction false} EncodedFits(cs: seq<Scalar>)
    ensures Utf8(EncodedAll(cs))
  {
    if |cs| > 0 {
      HeadFits(cs[0], EncodedAll(cs[1..]));
      EncodedFits(cs[1..]);
    }
  }

  lemma Two(x: byte, y: byte) returns (c: Scalar)
    requires 0xc2 <= x <= 0xdf && 0x80 <= y <= 0xbf
    ensures Encoded(c) == [x, y]
  {
    c := (x - 0xc0) * 64 + (y - 0x80);
  }

  lemma Three(x: byte, y: byte, z: byte) returns (c: Scalar)
    requires 0xe0 <= x <= 0xef && 0x80 <= y <= 0xbf && 0x80 <= z <= 0xbf
    requires (x == 0xe0 ==> 0xa0 <= y) && (x == 0xed ==> y <= 0x9f)
    ensures Encoded(c) == [x, y, z]
  {
    var high := (x - 0xe0) * 64 + (y - 0x80);
    c := high * 64 + (z - 0x80);
    assert c / 64 == high;
  }

  lemma Four(w: byte, x: byte, y: byte, z: byte) returns (c: Scalar)
    requires 0xf0 <= w <= 0xf4 && 0x80 <= x <= 0xbf && 0x80 <= y <= 0xbf && 0x80 <= z <= 0xbf
    requires (w == 0xf0 ==> 0x90 <= x) && (w == 0xf4 ==> x <= 0x8f)
    ensures Encoded(c) == [w, x, y, z]
  {
    var top := (w - 0xf0) * 64 + (x - 0x80);
    var high := top * 64 + (y - 0x80);
    c := high * 64 + (z - 0x80);
    assert c / 64 == high && high / 64 == top;
  }

  lemma FirstScalar(b: Bytes) returns (c: Scalar)
    requires |b| > 0 && Utf8(b)
    ensures |Encoded(c)| <= |b| && b[..|Encoded(c)|] == Encoded(c) && Utf8(b[|Encoded(c)|..])
  {
    if b[0] < 0x80 {
      c := b[0];
    } else if b[0] <= 0xdf {
      c := Two(b[0], b[1]);
    } else if b[0] <= 0xef {
      c := Three(b[0], b[1], b[2]);
    } else {
      c := Four(b[0], b[1], b[2], b[3]);
    }
  }

  lemma {:induction false} Decoded(b: Bytes) returns (cs: seq<Scalar>)
    requires Utf8(b)
    ensures EncodedAll(cs) == b
    decreases |b|
  {
    if |b| == 0 {
      cs := [];
    } else {
      var c := FirstScalar(b);
      var rest := Decoded(b[|Encoded(c)|..]);
      cs := [c] + rest;
      assert cs[1..] == rest && b == b[..|Encoded(c)|] + b[|Encoded(c)|..];
    }
  }

  /** Exactly the encodings of scalar values are accepted as text. */
  lemma Utf8Exact(b: Bytes)
    ensures Utf8(b) <==> exists cs :: EncodedAll(cs) == b
  {
    if Utf8(b) {
      var cs := Decoded(b);
    }
    forall cs | EncodedAll(cs) == b ensures Utf8(b) {
      EncodedFits(cs);
    }
  }
}
