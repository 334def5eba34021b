/** The reachability closure: the mark phase over the blobs a node holds. */
module Reach {
  import opened Core
  import opened Digests

  /** A held blob, or one whose read fails for a reason other than absence. */
  datatype Blob = Readable(bytes: Bytes) | Unreadable

  type Cas = map<Digest, Blob>

  /** Decodes a blob into its out-edges. */
  type Resolver = Bytes -> seq<Digest>

  function Edges(cas: Cas, refs: Resolver, d: Digest): seq<Digest> {
    if d in cas && cas[d].Readable? then refs(cas[d].bytes) else []
  }

  /** Closed under the out-edges of held blobs; absent digests have none. */
  ghost predicate Closed(cas: Cas, refs: Resolver, s: set<Digest>) {
    forall d, e :: d in s && e in Edges(cas, refs, d) ==> e in s
  }

  /** Reached from the seeds: in every closed set that contains them. */
  ghost predicate Reached(cas: Cas, refs: Resolver, seed: set<Digest>, d: Digest) {
    forall s: set<Digest> :: seed <= s && Closed(cas, refs, s) ==> d in s
  }

  lemma ReachedEdge(cas: Cas, refs: Resolver, seed: set<Digest>, d: Digest, e: Digest)
    requires Reached(cas, refs, seed, d) && e in Edges(cas, refs, d)
    ensures Reached(cas, refs, seed, e)
  {
  }

  /** Everything the walk could ever meet. */
  ghost function Universe(cas: Cas, refs: Resolver, seed: set<Digest>): set<Digest> {
    seed + set d, e | d in cas && e in Edges(cas, refs, d) :: e
  }

  method ToSeq(s: set<Digest>) returns (q: seq<Digest>)
    ensures forall d :: d in q <==> d in s
  {
    q := [];
    var left := s;
    while left != {}
      invariant left <= s
      invariant forall d :: d in q <==> d in s - left
      decreases |left|
    {
      var d :| d in left;
      q := q + [d];
      left := left - {d};
    }
  }

  /** Put the children of a blob that are not visited yet on the stack. */
  method PushNew(stack: seq<Digest>, visited: set<Digest>, children: seq<Digest>) returns (out: seq<Digest>)
    ensures forall d :: d in out <==> d in stack || (d in children && d !in visited)
  {
    out := stack;
    for i := 0 to |children|
      invariant forall d :: d in out <==> d in stack || (d in children[..i] && d !in visited)
    {
      assert children[..i + 1] == children[..i] + [children[i]];
      if children[i] !in visited {
        out := out + [children[i]];
      }
    }
    assert children[..|children|] == children;
  }

  /** The walk's state: everything found is reached, and only `todo` is unexpanded. */
  ghost predicate Walking(cas: Cas, refs: Resolver, seed: set<Digest>, visited: set<Digest>, todo: set<Digest>) {
    && seed <= visited + todo <= Universe(cas, refs, seed)
    && (forall d :: d in visited + todo ==> Reached(cas, refs, seed, d))
    && (forall d, e :: d in visited && e in Edges(cas, refs, d) ==> e in visited + todo)
    && (forall d :: d in visited && d in cas ==> cas[d].Readable?)
  }

  lemma WalkStart(cas: Cas, refs: Resolver, seed: set<Digest>)
    ensures Walking(cas, refs, seed, {}, seed)
  {
  }

  /** Expanding `d`: its new children join what is left. */
  lemma WalkStep(cas: Cas, refs: Resolver, seed: set<Digest>, visited: set<Digest>, todo: set<Digest>,
                 d: Digest, rest: set<Digest>, next: set<Digest>)
    requires Walking(cas, refs, seed, visited, todo) && d in todo
    requires d in cas ==> cas[d].Readable?
    requires rest <= todo <= rest + {d}
    requires next == rest + set e | e in Edges(cas, refs, d) && e !in visited + {d}
    ensures Walking(cas, refs, seed, visited + {d}, next)
  {
    forall e | e in Edges(cas, refs, d) ensures Reached(cas, refs, seed, e) && e in Universe(cas, refs, seed) {
      ReachedEdge(cas, refs, seed, d, e);
    }
    forall x, e | x in visited + {d} && e in Edges(cas, refs, x) ensures e in visited + {d} + next {
      if x != d {
        assert e in visited + todo;
      }
    }
  }

  lemma Expand(cas: Cas, refs: Resolver, seed: set<Digest>, visited: set<Digest>, stack: seq<Digest>, out: seq<Digest>)
    requires |stack| > 0 && Walking(cas, refs, seed, visited, Contents(stack))
    requires var d := stack[|stack| - 1];
             && (d in cas ==> cas[d].Readable?)
             && (forall e :: e in out <==> e in stack[..|stack| - 1]
                                           || (e in Edges(cas, refs, d) && e !in visited + {d}))
    ensures var d := stack[|stack| - 1];
            Walking(cas, refs, seed, visited + {d}, Contents(out)) && d in Universe(cas, refs, seed)
  {
    var d, rest := stack[|stack| - 1], stack[..|stack| - 1];
    assert stack == rest + [d];
    WalkStep(cas, refs, seed, visited, Contents(stack), d, Contents(rest), Contents(out));
  }

  /** A digest already expanded is dropped from what is left. */
  lemma Skip(cas: Cas, refs: Resolver, seed: set<Digest>, visited: set<Digest>, stack: seq<Digest>)
    requires |stack| > 0 && Walking(cas, refs, seed, visited, Contents(stack)) && stack[|stack| - 1] in visited
    ensures Walking(cas, refs, seed, visited, Contents(stack[..|stack| - 1]))
  {
    var d, rest := stack[|stack| - 1], stack[..|stack| - 1];
    assert stack == rest + [d];
    assert visited + Contents(rest) == visited + Contents(stack);
  }

  lemma Reaches(cas: Cas, refs: Resolver, seed: set<Digest>, visited: set<Digest>, stack: seq<Digest>)
    requires |stack| > 0 && Walking(cas, refs, seed, visited, Contents(stack))
    ensures Reached(cas, refs, seed, stack[|stack| - 1])
  {
    assert stack[|stack| - 1] in Contents(stack);
  }

  lemma WalkEnd(cas: Cas, refs: Resolver, seed: set<Digest>, visited: set<Digest>)
    requires Walking(cas, refs, seed, visited, {})
    ensures seed <= visited && Closed(cas, refs, visited)
    ensures forall d :: d in visited ==> Reached(cas, refs, seed, d)
    ensures forall d :: d in visited && d in cas ==> cas[d].Readable?
  {
    assert visited + {} == visited;
  }

  /** The worklist. On success it returns exactly the least closed set containing the seeds,
      absent digests included but not expanded; it fails exactly when a reached blob cannot
      be read. */
  method ReachableClosure(seed: set<Digest>, cas: Cas, refs: Resolver) returns (r: Result<set<Digest>, Digest>)
    ensures r.Ok? ==>
              && seed <= r.value && Closed(cas, refs, r.value)
              && (forall d :: d in r.value ==> Reached(cas, refs, seed, d))
              && (forall d :: d in r.value && d in cas ==> cas[d].Readable?)
    ensures r.Err? ==> Reached(cas, refs, seed, r.error) && r.error in cas && cas[r.error].Unreadable?
  {
    var visited: set<Digest> := {};
    var stack := ToSeq(seed);
    WalkStart(cas, refs, seed);
    assert Contents(stack) == seed;
    while |stack| > 0
      invariant Walking(cas, refs, seed, visited, Contents(stack))
      decreases Universe(cas, refs, seed) - visited, |stack|
    {
      var d := stack[|stack| - 1];
      if d in visited {
        Skip(cas, refs, seed, visited, stack);
        stack := stack[..|stack| - 1];
      } else if d in cas && cas[d].Unreadable? {
        Reaches(cas, refs, seed, visited, stack);
        return Err(d);
      } else {
        var children := if d in cas then refs(cas[d].bytes) else [];
        var out := PushNew(stack[..|stack| - 1], visited + {d}, children);
        Expand(cas, refs, seed, visited, stack, out);
        stack, visited := out, visited + {d};
      }
    }
    assert Contents(stack) == {};
    WalkEnd(cas, refs, seed, visited);
    return Ok(visited);
  }

  function Contents(q: seq<Digest>): set<Digest> {
    set d | d in q
  }

  /** The least closed set is unique, so the walk's order never matters. */
  lemma LeastIsUnique(seed: set<Digest>, cas: Cas, refs: Resolver, a: set<Digest>, b: set<Digest>)
    requires seed <= a && Closed(cas, refs, a) && forall d :: d in a ==> Reached(cas, refs, seed, d)
    requires seed <= b && Closed(cas, refs, b) && forall d :: d in b ==> Reached(cas, refs, seed, d)
    ensures a == b
  {
    assert forall d :: d in a ==> d in b;
    assert forall d :: d in b ==> d in a;
  }

  /** A chain of out-edges from a seed to `d`. */
  ghost predicate Path(cas: Cas, refs: Resolver, seed: set<Digest>, p: seq<Digest>, d: Digest) {
    && |p| > 0 && p[0] in seed && p[|p| - 1] == d
    && forall i :: 0 <= i < |p| - 1 ==> p[i + 1] in Edges(cas, refs, p[i])
  }

  /** A path leads only to reached digests. */
  lemma {:induction false} PathReaches(cas: Cas, refs: Resolver, seed: set<Digest>, p: seq<Digest>, d: Digest)
    requires Path(cas, refs, seed, p, d)
    ensures Reached(cas, refs, seed, d)
    decreases |p|
  {
    if |p| > 1 {
      var q := p[..|p| - 1];
      forall i | 0 <= i < |q| - 1 ensures q[i + 1] in Edges(cas, refs, q[i]) {
        assert p[i + 1] in Edges(cas, refs, p[i]);
      }
      PathReaches(cas, refs, seed, q, q[|q| - 1]);
      assert p[|q| - 1 + 1] in Edges(cas, refs, p[|q| - 1]);
      ReachedEdge(cas, refs, seed, q[|q| - 1], d);
    }
  }

  /** And the closure holds nothing a path does not lead to. */
  lemma ReachedHasPath(seed: set<Digest>, cas: Cas, refs: Resolver, d: Digest)
    requires Reached(cas, refs, seed, d)
    ensures exists p :: Path(cas, refs, seed, p, d)
  {
    var u := Universe(cas, refs, seed);
    var s := set x | x in u && exists p :: Path(cas, refs, seed, p, x);
    forall x | x in seed ensures x in s {
      assert Path(cas, refs, seed, [x], x);
    }
    forall x, y | x in s && y in Edges(cas, refs, x) ensures y in s {
      var p :| Path(cas, refs, seed, p, x);
      var q := p + [y];
      forall i | 0 <= i < |q| - 1 ensures q[i + 1] in Edges(cas, refs, q[i]) {
        if i < |p| - 1 {
          assert p[i + 1] in Edges(cas, refs, p[i]);
        }
      }
      assert Path(cas, refs, seed, q, y);
    }
    assert seed <= s && Closed(cas, refs, s);
  }
}
