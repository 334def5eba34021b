/** File ids: the bit mixer that folds a device and an inode into one 64-bit word. A word is
    its 64 bits, the low bit first, and wraps modulo 2^64. */
module FileIds {
  type Bits = seq<bool>
  type Word = w: Bits | |w| == 64 witness seq(64, _ => false)

  // ---- Bits and numbers ----

  function Pow2(k: nat): (p: nat)
    ensures p > 0
  {
    if k == 0 then 1 else 2 * Pow2(k - 1)
  }

  function Value(w: Bits): (n: nat)
    ensures n < Pow2(|w|)
  {
    if |w| == 0 then 0 else (if w[0] then 1 else 0) + 2 * Value(w[1..])
  }

  function OfValue(n: nat, k: nat): (w: Bits)
    ensures |w| == k
  {
    if k == 0 then [] else [n % 2 == 1] + OfValue(n / 2, k - 1)
  }

  lemma {:induction false} ValueOf(n: nat, k: nat)
    requires n < Pow2(k)
    ensures Value(OfValue(n, k)) == n
  {
    if k > 0 {
      ValueOf(n / 2, k - 1);
    }
  }

  lemma {:induction false} OfValueOf(w: Bits)
    ensures OfValue(Value(w), |w|) == w
  {
    if |w| > 0 {
      OfValueOf(w[1..]);
    }
  }

  // ---- Arithmetic modulo 2^64 ----

  const WRAP: nat := 0x1_0000_0000_0000_0000

  lemma WordRange(w: Word)
    ensures Pow2(|w|) == WRAP && Value(w) < WRAP
  {
    assert Pow2(8) == 0x100;
    assert Pow2(16) == 0x1_0000;
    assert Pow2(24) == 0x100_0000;
    assert Pow2(32) == 0x1_0000_0000;
    assert Pow2(40) == 0x100_0000_0000;
    assert Pow2(48) == 0x1_0000_0000_0000;
    assert Pow2(56) == 0x100_0000_0000_0000;
  }

  type Arithmetic = nat -> nat

  function Adding(n: nat): Arithmetic {
    (x: nat) => (x + n) % WRAP
  }

  function Scaling(n: nat): Arithmetic {
    (x: nat) => x * n % WRAP
  }

  function Via(w: Word, f: Arithmetic): Word {
    OfValue(f(Value(w)), |w|)
  }

  function Plus(w: Word, n: nat): Word {
    Via(w, Adding(n))
  }

  function Times(w: Word, n: nat): Word {
    Via(w, Scaling(n))
  }

  /** Arithmetic that undoes other arithmetic on 64-bit numbers undoes it on words. */
  lemma ViaUndone(w: Word, f: Arithmetic, g: Arithmetic)
    requires f(Value(w)) < WRAP && g(f(Value(w))) == Value(w)
    ensures Via(Via(w, f), g) == w
  {
    WordRange(w);
    ValueOf(f(Value(w)), |w|);
    OfValueOf(w);
  }

  lemma ModIs(n: int, q: int, r: int)
    requires n == q * WRAP + r && 0 <= r < WRAP
    ensures n % WRAP == r
  {
  }

  lemma AddUndone(x: nat, a: nat, b: nat)
    requires x < WRAP && a + b == WRAP
    ensures Adding(a)(x) < WRAP && Adding(b)(Adding(a)(x)) == x
  {
    var q, r := (x + a) / WRAP, (x + a) % WRAP;
    ModIs(r + b, 1 - q, x);
  }

  lemma MulUndone(x: nat, a: nat, b: nat)
    requires x < WRAP && a * b % WRAP == 1
    ensures Scaling(a)(x) < WRAP && Scaling(b)(Scaling(a)(x)) == x
  {
    var q, r, k := x * a / WRAP, x * a % WRAP, a * b / WRAP;
    calc {
      r * b;
      (x * a - q * WRAP) * b;
      x * (a * b) - q * WRAP * b;
      x * (k * WRAP + 1) - q * WRAP * b;
      (x * k - q * b) * WRAP + x;
    }
    ModIs(r * b, x * k - q * b, x);
  }

  lemma PlusUndone(w: Word, a: nat, b: nat)
    requires a + b == WRAP
    ensures Plus(Plus(w, a), b) == w
  {
    WordRange(w);
    AddUndone(Value(w), a, b);
    ViaUndone(w, Adding(a), Adding(b));
  }

  /** Multiplying by an odd constant is undone by multiplying by its inverse. */
  lemma TimesUndone(w: Word, a: nat, b: nat)
    requires a * b % WRAP == 1
    ensures Times(Times(w, a), b) == w
  {
    WordRange(w);
    MulUndone(Value(w), a, b);
    ViaUndone(w, Scaling(a), Scaling(b));
  }

  // ---- Xor with a shifted copy ----

  function Xor(v: Bits, w: Bits): (r: Bits)
    requires |v| == |w|
    ensures |r| == |v|
  {
    seq(|v|, i requires 0 <= i < |v| => v[i] != w[i])
  }

  function Shr(w: Bits, s: nat): (r: Bits)
    ensures |r| == |w|
  {
    seq(|w|, i requires 0 <= i < |w| => i + s < |w| && w[i + s])
  }

  function Fold(w: Bits, s: nat): (r: Bits)
    ensures |r| == |w|
  {
    Xor(w, Shr(w, s))
  }

  /** Recovers each bit from the one `s` above it, from the top down. */
  function Unfold(y: Bits, s: nat): (w: Bits)
    requires s > 0
    ensures |w| == |y|
  {
    if |y| <= s then y
    else
      var above := Unfold(y[1..], s);
      [y[0] != above[s - 1]] + above
  }

  lemma FoldTail(w: Bits, s: nat)
    requires |w| > 0
    ensures Fold(w, s)[1..] == Fold(w[1..], s)
  {
  }

  lemma {:induction false} FoldUndone(w: Bits, s: nat)
    requires s > 0
    ensures Unfold(Fold(w, s), s) == w
  {
    if |w| <= s {
      assert Fold(w, s) == w;
    } else {
      FoldUndone(w[1..], s);
      FoldTail(w, s);
    }
  }

  lemma {:induction false} UnfoldUndone(y: Bits, s: nat)
    requires s > 0
    ensures Fold(Unfold(y, s), s) == y
  {
    if |y| <= s {
      assert Fold(y, s) == y;
    } else {
      UnfoldUndone(y[1..], s);
      var w := Unfold(y, s);
      FoldTail(w, s);
      assert w[1..] == Unfold(y[1..], s);
      assert Fold(w, s) == [Fold(w, s)[0]] + Fold(w, s)[1..];
    }
  }

  // ---- The mixer ----

  const GAMMA: nat := 0x9E37_79B9_7F4A_7C15
  const M1: nat := 0xBF58_476D_1CE4_E5B9
  const M2: nat := 0x94D0_49BB_1331_11EB

  function SplitMix(z: Word): Word {
    Fold(Times(Fold(Times(Fold(Plus(z, GAMMA), 30), M1), 27), M2), 31)
  }

  /** The inverses of the two multipliers. */
  const W1: nat := 0x96DE_1B17_3F11_9089
  const W2: nat := 0x3196_42B2_D24D_8EC3

  function Unmix(y: Word): Word {
    Plus(Unfold(Times(Unfold(Times(Unfold(y, 31), W2), 27), W1), 30), WRAP - GAMMA)
  }

  lemma Inverses()
    ensures M1 * W1 % WRAP == 1 && W1 * M1 % WRAP == 1
    ensures M2 * W2 % WRAP == 1 && W2 * M2 % WRAP == 1
  {
  }

  /** Fold, scale and fold back. */
  lemma RoundUndone(z: Word, s: nat, a: nat, b: nat)
    requires s > 0 && a * b % WRAP == 1
    ensures Unfold(Times(Times(Fold(z, s), a), b), s) == z
    ensures Times(Fold(Unfold(Times(z, b), s), s), a) == Times(Times(z, b), a)
  {
    FoldUndone(z, s);
    TimesUndone(Fold(z, s), a, b);
    UnfoldUndone(Times(z, b), s);
  }

  lemma MixUndone(z: Word)
    ensures Unmix(SplitMix(z)) == z
  {
    Inverses();
    var a: Word := Plus(z, GAMMA);
    var c: Word := Times(Fold(a, 30), M1);
    FoldUndone(Times(Fold(c, 27), M2), 31);
    RoundUndone(c, 27, M2, W2);
    RoundUndone(a, 30, M1, W1);
    PlusUndone(z, GAMMA, WRAP - GAMMA);
  }

  lemma UnmixUndone(y: Word)
    ensures SplitMix(Unmix(y)) == y
  {
    Inverses();
    var e: Word := Unfold(y, 31);
    var g: Word := Unfold(Times(e, W2), 27);
    PlusUndone(Unfold(Times(g, W1), 30), WRAP - GAMMA, GAMMA);
    RoundUndone(g, 30, M1, W1);
    TimesUndone(g, W1, M1);
    RoundUndone(e, 27, M2, W2);
    TimesUndone(e, W2, M2);
    UnfoldUndone(y, 31);
  }

  /** The mixer is a bijection on 64-bit words, with `Unmix` as its inverse. */
  lemma SplitMixBijective(z: Word)
    ensures Unmix(SplitMix(z)) == z
    ensures SplitMix(Unmix(z)) == z
  {
    MixUndone(z);
    UnmixUndone(z);
  }

  function FileId(dev: Word, ino: Word): Word {
    SplitMix(Xor(dev, SplitMix(ino)))
  }

  lemma XorTwice(v: Bits, w: Bits)
    requires |v| == |w|
    ensures Xor(v, Xor(v, w)) == w && Xor(Xor(v, w), w) == v
  {
  }

  /** Of two files with equal ids, either device and inode both agree or both differ: on one
      device no two inodes share an id, and one inode number never gives two devices the same
      id. */
  lemma FileIdsDiffer(dev: Word, ino: Word, dev': Word, ino': Word)
    requires FileId(dev, ino) == FileId(dev', ino')
    ensures dev == dev' <==> ino == ino'
  {
    SplitMixBijective(Xor(dev, SplitMix(ino)));
    SplitMixBijective(Xor(dev', SplitMix(ino')));
    XorTwice(dev, SplitMix(ino));
    XorTwice(dev', SplitMix(ino'));
    SplitMixBijective(ino);
    SplitMixBijective(ino');
  }

  /** Every word is some inode's id on every device. */
  lemma FileIdsCover(dev: Word, id: Word)
    ensures exists ino: Word :: FileId(dev, ino) == id
  {
    var mixed: Word := Xor(dev, Unmix(id));
    SplitMixBijective(id);
    SplitMixBijective(mixed);
    XorTwice(dev, Unmix(id));
    assert FileId(dev, Unmix(mixed)) == id;
  }
}
