/** Content digests: a hash plus the algorithm that produced it, with its multihash bytes. */
module Digests {
  import opened Core

  datatype Algo = Blake3 | Sha256

  const DIGEST_LEN := 32

  datatype DigestValue = DigestValue(algo: Algo, bytes: Bytes)

  /** Every digest comes from hashing or strict parsing, so its length is its algorithm's. */
  type Digest = d: DigestValue | |d.bytes| == DIGEST_LEN
    witness DigestValue(Blake3, seq(DIGEST_LEN, _ => 0))

  /** A hash function per algorithm, otherwise unknown. */
  type Hash = h: (Algo, Bytes) -> Bytes | forall a, b :: |h(a, b)| == DIGEST_LEN
    ghost witness (a: Algo, b: Bytes) => seq(DIGEST_LEN, _ => 0)

  function Compute(h: Hash, algo: Algo, data: Bytes): Digest {
    DigestValue(algo, h(algo, data))
  }

  predicate Verifies(h: Hash, d: Digest, data: Bytes)
    ensures Verifies(h, d, data) <==> h(d.algo, data) == d.bytes
  {
    Compute(h, d.algo, data) == d
  }

  // ---- Multihash bytes ----

  function Multicodec(a: Algo): byte {
    match a case Blake3 => 0x1e case Sha256 => 0x12
  }

  function FromMulticodec(code: byte): Option<Algo> {
    if code == 0x1e then Some(Blake3) else if code == 0x12 then Some(Sha256) else None
  }

  function ToMultihash(d: Digest): (b: Bytes)
    ensures |b| == 2 + DIGEST_LEN
  {
    [Multicodec(d.algo), DIGEST_LEN] + d.bytes
  }

  datatype ParseError =
    | Truncated
    | UnknownMulticodec(code: byte)
    | WrongLength(expected: nat, actual: nat)
    | MissingSeparator
    | UnknownAlgo(name: Bytes)
    | BadHex

  function FromMultihash(b: Bytes): Result<Digest, ParseError> {
    if |b| < 2 then Err(Truncated)
    else match FromMulticodec(b[0])
      case None => Err(UnknownMulticodec(b[0]))
      case Some(algo) =>
        var bytes := b[2..];
        if |bytes| != b[1] then Err(Truncated)
        else if |bytes| != DIGEST_LEN then Err(WrongLength(DIGEST_LEN, |bytes|))
        else Ok(DigestValue(algo, bytes))
  }

  /** The multihash form is one-to-one, and only its own bytes parse. */
  lemma MultihashExact(b: Bytes, d: Digest)
    ensures FromMultihash(b) == Ok(d) <==> b == ToMultihash(d)
  {
    assert ToMultihash(d)[2..] == d.bytes;
    if |b| >= 2 {
      assert b == [b[0], b[1]] + b[2..];
    }
  }

  /** Why other bytes are refused. */
  lemma MultihashRefusals(b: Bytes)
    ensures FromMultihash(b) == Err(Truncated) <==>
              |b| < 2 || (b[0] in {0x1e, 0x12} && |b| - 2 != b[1])
    ensures forall c :: FromMultihash(b) == Err(UnknownMulticodec(c)) <==> |b| >= 2 && b[0] == c && c !in {0x1e, 0x12}
    ensures forall n :: FromMultihash(b) == Err(WrongLength(32, n)) <==>
              |b| >= 2 && b[0] in {0x1e, 0x12} && |b| - 2 == b[1] && n == b[1] && n != 32
  {
  }

  lemma MultihashInjective(d: Digest, e: Digest)
    requires ToMultihash(d) == ToMultihash(e)
    ensures d == e
  {
    MultihashExact(ToMultihash(d), d);
    MultihashExact(ToMultihash(d), e);
  }
}
