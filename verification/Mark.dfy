/** Marking from roots through action results and trees: the walk and the codecs together. */
module Mark {
  import opened Core
  import opened Digests
  import opened Blobs
  import Reach

  /** The blob at `d` is the canonical bytes of a value that names `e`. */
  ghost predicate NamedBy(b: Bytes, e: Digest) {
    || (exists v: ActionResult :: |v.outputs| <= U64_MAX && b == EncodeResult(v) && ResultNames(v, e))
    || (exists t: Tree :: |t.entries| <= U64_MAX && b == EncodeTree(t) && TreeNames(t, e))
  }

  ghost predicate Child(cas: Reach.Cas, d: Digest, e: Digest) {
    d in cas && cas[d].Readable? && NamedBy(cas[d].bytes, e)
  }

  /** The edges the resolver finds are exactly the children of the one value the bytes hold. */
  lemma EdgesAreChildren(b: Bytes, e: Digest)
    ensures e in ReferencesOf(b) <==> NamedBy(b, e)
  {
    if e in ReferencesOf(b) {
      if DecodeResult(b).Some? {
        var v := DecodeResult(b).value;
        ResultRoundTrip(b, v);
        ResolvesResult(v, e);
      } else {
        var t := DecodeTree(b).value;
        TreeRoundTrip(b, t);
        ResolvesTree(t, e);
      }
    }
    forall v: ActionResult | |v.outputs| <= U64_MAX && b == EncodeResult(v) && ResultNames(v, e) ensures e in ReferencesOf(b) {
      ResolvesResult(v, e);
    }
    forall t: Tree | |t.entries| <= U64_MAX && b == EncodeTree(t) && TreeNames(t, e) ensures e in ReferencesOf(b) {
      ResolvesTree(t, e);
    }
  }

  /** A chain of children from a root down to `d`. */
  ghost predicate Chain(cas: Reach.Cas, roots: set<Digest>, p: seq<Digest>, d: Digest) {
    && |p| > 0 && p[0] in roots && p[|p| - 1] == d
    && forall i :: 0 <= i < |p| - 1 ==> Child(cas, p[i], p[i + 1])
  }

  lemma ChainIsPath(cas: Reach.Cas, roots: set<Digest>, p: seq<Digest>, d: Digest)
    ensures Chain(cas, roots, p, d) <==> Reach.Path(cas, ReferencesOf, roots, p, d)
  {
    forall i | 0 <= i < |p| - 1
      ensures Child(cas, p[i], p[i + 1]) <==> p[i + 1] in Reach.Edges(cas, ReferencesOf, p[i])
    {
      if p[i] in cas && cas[p[i]].Readable? {
        EdgesAreChildren(cas[p[i]].bytes, p[i + 1]);
      }
    }
  }

  ghost predicate Marked(cas: Reach.Cas, roots: set<Digest>, d: Digest) {
    exists p :: Chain(cas, roots, p, d)
  }

  lemma ReachedByChain(cas: Reach.Cas, roots: set<Digest>, d: Digest)
    ensures Reach.Reached(cas, ReferencesOf, roots, d) <==> Marked(cas, roots, d)
  {
    if Reach.Reached(cas, ReferencesOf, roots, d) {
      Reach.ReachedHasPath(roots, cas, ReferencesOf, d);
      var p :| Reach.Path(cas, ReferencesOf, roots, p, d);
      ChainIsPath(cas, roots, p, d);
    }
    forall p | Chain(cas, roots, p, d) ensures Reach.Reached(cas, ReferencesOf, roots, d) {
      ChainIsPath(cas, roots, p, d);
      Reach.PathReaches(cas, ReferencesOf, roots, p, d);
    }
  }

  lemma ClosureIsMarked(cas: Reach.Cas, roots: set<Digest>, s: set<Digest>, d: Digest)
    requires roots <= s && Reach.Closed(cas, ReferencesOf, s)
    requires d in s ==> Reach.Reached(cas, ReferencesOf, roots, d)
    ensures d in s <==> Marked(cas, roots, d)
  {
    ReachedByChain(cas, roots, d);
  }

  /** What is marked is exactly what the roots name, directly or through action results and
      trees that are held; it fails exactly when something marked cannot be read. */
  method MarkFrom(roots: set<Digest>, cas: Reach.Cas) returns (r: Result<set<Digest>, Digest>)
    ensures r.Ok? ==> forall d :: d in r.value <==> Marked(cas, roots, d)
    ensures r.Err? <==> exists d :: Marked(cas, roots, d) && d in cas && cas[d].Unreadable?
  {
    r := Reach.ReachableClosure(roots, cas, ReferencesOf);
    match r
    case Ok(s) =>
      forall d ensures d in s <==> Marked(cas, roots, d) {
        ClosureIsMarked(cas, roots, s, d);
      }
    case Err(d) =>
      ReachedByChain(cas, roots, d);
  }
}
