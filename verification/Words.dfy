/** Fixed-width integers as bytes, in both orders. */
module Words {
  import opened Core

  function Pow256(w: nat): nat {
    if w == 0 then 1 else 256 * Pow256(w - 1)
  }

  lemma Widths()
    ensures Pow256(1) == 0x100
    ensures Pow256(4) == 0x1_0000_0000
    ensures Pow256(7) == 0x100_0000_0000_0000
    ensures Pow256(8) == U64_MAX + 1
  {
    assert Pow256(2) == 0x1_0000;
    assert Pow256(3) == 0x100_0000;
    assert Pow256(5) == 0x100_0000_0000;
    assert Pow256(6) == 0x1_0000_0000_0000;
  }

  /** Little-endian: the low byte first. */
  function LE(n: nat, w: nat): (b: Bytes)
    ensures |b| == w
  {
    if w == 0 then [] else [n % 256] + LE(n / 256, w - 1)
  }

  function FromLE(b: Bytes): (n: nat)
    ensures n < Pow256(|b|)
  {
    if |b| == 0 then 0 else b[0] + 256 * FromLE(b[1..])
  }

  lemma {:induction false} LERoundTrip(n: nat, w: nat)
    requires n < Pow256(w)
    ensures FromLE(LE(n, w)) == n
  {
    if w > 0 {
      LERoundTrip(n / 256, w - 1);
    }
  }

  lemma Digits(x: byte, n: nat)
    ensures (x + 256 * n) / 256 == n && (x + 256 * n) % 256 == x
  {
  }

  lemma {:induction false} LECanonical(b: Bytes)
    ensures LE(FromLE(b), |b|) == b
  {
    if |b| > 0 {
      LECanonical(b[1..]);
      Digits(b[0], FromLE(b[1..]));
      assert b == [b[0]] + b[1..];
    }
  }

  /** Big-endian: the high byte first. */
  function BE(n: nat, w: nat): (b: Bytes)
    ensures |b| == w
  {
    if w == 0 then [] else BE(n / 256, w - 1) + [n % 256]
  }

  function FromBE(b: Bytes): (n: nat)
    ensures n < Pow256(|b|)
  {
    if |b| == 0 then 0 else 256 * FromBE(b[..|b| - 1]) + b[|b| - 1]
  }

  lemma {:induction false} BERoundTrip(n: nat, w: nat)
    requires n < Pow256(w)
    ensures FromBE(BE(n, w)) == n
  {
    if w > 0 {
      BERoundTrip(n / 256, w - 1);
      assert BE(n, w)[..w - 1] == BE(n / 256, w - 1);
    }
  }

  lemma {:induction false} BECanonical(b: Bytes)
    ensures BE(FromBE(b), |b|) == b
  {
    if |b| > 0 {
      BECanonical(b[..|b| - 1]);
      Digits(b[|b| - 1], FromBE(b[..|b| - 1]));
      assert b == b[..|b| - 1] + [b[|b| - 1]];
    }
  }

  lemma {:induction false} FromBEHead(x: byte, rest: Bytes)
    ensures FromBE([x] + rest) == x * Pow256(|rest|) + FromBE(rest)
  {
    var b := [x] + rest;
    if |rest| == 0 {
      assert b[..0] == [];
    } else {
      var front := rest[..|rest| - 1];
      FromBEHead(x, front);
      assert b[..|b| - 1] == [x] + front;
      Regroup(x, Pow256(|front|), FromBE(front), rest[|rest| - 1]);
    }
  }

  lemma FromBEHead8(x: byte, rest: Bytes)
    requires |rest| == 7
    ensures FromBE([x] + rest) == x * 0x100_0000_0000_0000 + FromBE(rest)
    ensures FromBE(rest) < 0x100_0000_0000_0000
  {
    FromBEHead(x, rest);
    Widths();
  }

  lemma Regroup(x: nat, p: nat, f: nat, last: nat)
    ensures 256 * (x * p + f) + last == x * (256 * p) + (256 * f + last)
  {
  }

  type i32 = x: int | -0x8000_0000 <= x < 0x8000_0000

  /** The two's-complement word of a signed integer. */
  function ToWord(x: i32): (n: nat)
    ensures n < 0x1_0000_0000
  {
    if x < 0 then x + 0x1_0000_0000 else x
  }

  function FromWord(n: nat): (x: i32)
    requires n < 0x1_0000_0000
    ensures ToWord(x) == n
  {
    if n < 0x8000_0000 then n else n - 0x1_0000_0000
  }
}
