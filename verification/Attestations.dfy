/** Attestations, the grow-only set they accumulate in, and its k-of-n resolution. */
module Attestations {
  import opened Core
  import opened Digests

  type SignerId = Bytes

  /** A signer asserts that some action, the key of the set this is in, produced `result`. */
  datatype Attestation = Attestation(signer: SignerId, result: Digest)

  const STMT_DOMAIN: Bytes := Ascii("nessie.Attestation.v1") + [0]

  /** The message a signer signs to attest that `action` produced `result`. */
  function Statement(action: Digest, result: Digest): Bytes {
    STMT_DOMAIN + (ToMultihash(action) + ToMultihash(result))
  }

  /** A signature for one action and result is never one for another. */
  lemma StatementBinds(a: Digest, r: Digest, a': Digest, r': Digest)
    ensures Statement(a, r) == Statement(a', r') <==> a == a' && r == r'
  {
    if Statement(a, r) == Statement(a', r') {
      var m, m' := ToMultihash(a) + ToMultihash(r), ToMultihash(a') + ToMultihash(r');
      CancelPrefix(STMT_DOMAIN, m, m');
      assert m[..34] == ToMultihash(a) && m[34..] == ToMultihash(r);
      assert m'[..34] == ToMultihash(a') && m'[34..] == ToMultihash(r');
      MultihashInjective(a, a');
      MultihashInjective(r, r');
    }
  }

  lemma CancelPrefix(p: Bytes, x: Bytes, y: Bytes)
    requires p + x == p + y
    ensures x == y
  {
    assert (p + x)[|p|..] == x && (p + y)[|p|..] == y;
  }

  // ---- Resolution ----

  datatype Resolution =
    | Unconfirmed
    | Confirmed(result: Digest)
    | Conflicting(results: set<Digest>)

  /** The distinct signers behind `r`. */
  function SignersFor(atts: set<Attestation>, r: Digest): set<SignerId> {
    set a | a in atts && a.result == r :: a.signer
  }

  predicate IsConfirmed(atts: set<Attestation>, r: Digest, k: nat) {
    |SignersFor(atts, r)| >= k
  }

  function ConfirmedResults(atts: set<Attestation>, k: nat): set<Digest> {
    set a | a in atts && IsConfirmed(atts, a.result, k) :: a.result
  }

  function Resolve(atts: set<Attestation>, k: nat): Resolution {
    var rs := ConfirmedResults(atts, k);
    if rs == {} then Unconfirmed
    else if |rs| == 1 then
      OnlyOne(rs);
      var r :| r in rs;
      Confirmed(r)
    else Conflicting(rs)
  }

  lemma OnlyOne<T>(s: set<T>)
    requires |s| == 1
    ensures forall x, y :: x in s && y in s ==> x == y
  {
    forall x, y | x in s && y in s ensures x == y {
      if x != y {
        assert {x, y} <= s;
        SubsetSize({x, y}, s);
      }
    }
  }

  /** With a threshold of at least one, a confirmed result is one somebody attested. */
  lemma ConfirmedMember(atts: set<Attestation>, r: Digest, k: nat)
    requires k >= 1
    ensures r in ConfirmedResults(atts, k) <==> IsConfirmed(atts, r, k)
  {
    if IsConfirmed(atts, r, k) {
      var s :| s in SignersFor(atts, r);
      assert Attestation(s, r) in atts;
    }
  }

  /** Resolution says exactly whether none, one or several results have k distinct signers. */
  lemma ResolveExact(atts: set<Attestation>, k: nat)
    requires k >= 1
    ensures Resolve(atts, k) == Unconfirmed <==> forall r :: !IsConfirmed(atts, r, k)
    ensures forall r :: Resolve(atts, k) == Confirmed(r)
                        <==> IsConfirmed(atts, r, k) && forall q :: IsConfirmed(atts, q, k) ==> q == r
    ensures forall rs :: Resolve(atts, k) == Conflicting(rs)
                         <==> |rs| >= 2 && forall r :: r in rs <==> IsConfirmed(atts, r, k)
  {
    var rs := ConfirmedResults(atts, k);
    forall r ensures r in rs <==> IsConfirmed(atts, r, k) {
      ConfirmedMember(atts, r, k);
    }
    if |rs| == 1 {
      OnlyOne(rs);
    }
    forall r ensures Resolve(atts, k) == Confirmed(r)
                     <==> IsConfirmed(atts, r, k) && forall q :: IsConfirmed(atts, q, k) ==> q == r
    {
      if IsConfirmed(atts, r, k) && forall q :: IsConfirmed(atts, q, k) ==> q == r {
        assert rs == {r};
      }
    }
    forall other ensures Resolve(atts, k) == Conflicting(other)
                         <==> |other| >= 2 && forall r :: r in other <==> IsConfirmed(atts, r, k)
    {
      if forall r :: r in other <==> IsConfirmed(atts, r, k) {
        assert other == rs;
      }
    }
  }

  lemma ConfirmedGrows(small: set<Attestation>, big: set<Attestation>, r: Digest, k: nat)
    requires small <= big && IsConfirmed(small, r, k)
    ensures IsConfirmed(big, r, k)
  {
    SubsetSize(SignersFor(small, r), SignersFor(big, r));
  }

  /** A confirmation is never revoked: as the set grows it stays, or a conflict that still
      names it appears. */
  lemma ResolutionGrows(small: set<Attestation>, big: set<Attestation>, k: nat)
    requires k >= 1 && small <= big && Resolve(small, k).Confirmed?
    ensures var r := Resolve(small, k).result;
            Resolve(big, k) == Confirmed(r) || (Resolve(big, k).Conflicting? && r in Resolve(big, k).results)
  {
    var r := Resolve(small, k).result;
    ResolveExact(small, k);
    ResolveExact(big, k);
    ConfirmedGrows(small, big, r, k);
  }

  // ---- Convergence ----

  /** How an attestation reaches a replica: by itself, or inside another replica's set. */
  datatype Delivery = One(att: Attestation) | Batch(atts: set<Attestation>)

  function Carried(d: Delivery): set<Attestation> {
    match d case One(a) => {a} case Batch(s) => s
  }

  function Carries(ds: seq<Delivery>): set<Attestation> {
    set i, a | 0 <= i < |ds| && a in Carried(ds[i]) :: a
  }

  function Deliver(s: set<Attestation>, ds: seq<Delivery>): set<Attestation>
    decreases |ds|
  {
    if |ds| == 0 then s else Deliver(s + Carried(ds[0]), ds[1..])
  }

  lemma {:induction false} DeliverContents(s: set<Attestation>, ds: seq<Delivery>)
    ensures Deliver(s, ds) == s + Carries(ds)
    decreases |ds|
  {
    if |ds| > 0 {
      DeliverContents(s + Carried(ds[0]), ds[1..]);
      assert Carries(ds) == Carried(ds[0]) + Carries(ds[1..]) by {
        forall a | a in Carries(ds) ensures a in Carried(ds[0]) + Carries(ds[1..]) {
          var i :| 0 <= i < |ds| && a in Carried(ds[i]);
          if i > 0 {
            assert a in Carried(ds[1..][i - 1]);
          }
        }
        forall a | a in Carries(ds[1..]) ensures a in Carries(ds) {
          var i :| 0 <= i < |ds[1..]| && a in Carried(ds[1..][i]);
          assert a in Carried(ds[i + 1]);
        }
      }
    }
  }

  /** Replicas that were sent the same attestations, in any order, grouping and
      multiplicity, hold the same set and so resolve alike. */
  lemma Converge(ds: seq<Delivery>, es: seq<Delivery>, k: nat)
    requires Carries(ds) == Carries(es)
    ensures Deliver({}, ds) == Deliver({}, es)
    ensures Resolve(Deliver({}, ds), k) == Resolve(Deliver({}, es), k)
  {
    DeliverContents({}, ds);
    DeliverContents({}, es);
  }

  /** The set as the store keeps it: it only grows. */
  class AttestationSet {
    var atts: set<Attestation>

    constructor ()
      ensures atts == {}
    {
      atts := {};
    }

    method Insert(att: Attestation) returns (added: bool)
      modifies this
      ensures added <==> att !in old(atts)
      ensures atts == Deliver(old(atts), [One(att)])
    {
      DeliverContents(atts, [One(att)]);
      assert Carries([One(att)]) == {att};
      added := att !in atts;
      atts := atts + {att};
    }

    method Merge(other: AttestationSet)
      modifies this
      ensures atts == Deliver(old(atts), [Batch(old(other.atts))])
      ensures other != this ==> other.atts == old(other.atts)
    {
      DeliverContents(atts, [Batch(other.atts)]);
      assert Carries([Batch(other.atts)]) == other.atts;
      atts := atts + other.atts;
    }
  }
}
