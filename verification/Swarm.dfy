/** Reading through to peers: a local miss is served by the first peer whose bytes verify. */
module Swarm {
  import opened Core
  import opened Digests

  datatype GetError = NotFound | Corrupt

  /** What one peer answers: nothing, or a body of whatever bytes it likes. */
  type Answer = Option<Bytes>

  predicate Serves(h: Hash, d: Digest, a: Answer) {
    a.Some? && Verifies(h, d, a.value)
  }

  /** The first of the answers that verifies and that storing does not fail on. */
  ghost predicate FirstServing(h: Hash, d: Digest, answers: seq<Answer>, refused: set<nat>, i: nat) {
    && i < |answers| && Serves(h, d, answers[i]) && i !in refused
    && forall j :: 0 <= j < i ==> !Serves(h, d, answers[j]) || j in refused
  }

  ghost predicate AnyServing(h: Hash, d: Digest, answers: seq<Answer>, refused: set<nat>) {
    exists i :: 0 <= i < |answers| && Serves(h, d, answers[i]) && i !in refused
  }

  class SwarmCas {
    const h: Hash
    const cacheFills: bool
    var local: map<Digest, Bytes>

    constructor (h: Hash, cacheFills: bool, local: map<Digest, Bytes>)
      ensures this.h == h && this.cacheFills == cacheFills && this.local == local
    {
      this.h, this.cacheFills, this.local := h, cacheFills, local;
    }

    /** Commits only verified bytes; writing them can fail. */
    method PutKeyed(d: Digest, body: Bytes, refused: bool) returns (ok: bool)
      modifies this`local
      ensures ok == (Verifies(h, d, body) && !refused)
      ensures local == if ok then old(local)[d := body] else old(local)
    {
      ok := Verifies(h, d, body) && !refused;
      if ok {
        local := local[d := body];
      }
    }

    /** Offers each body in turn to the local store until it takes one. `refused` are the peers
        at whose turn storing fails. */
    method Fetch(d: Digest, answers: seq<Answer>, refused: set<nat>) returns (found: bool)
      modifies this`local
      ensures found ==> exists i: nat :: FirstServing(h, d, answers, refused, i) && local == old(local)[d := answers[i].value]
      ensures !found ==> local == old(local) && !AnyServing(h, d, answers, refused)
    {
      for i := 0 to |answers|
        invariant local == old(local)
        invariant forall j :: 0 <= j < i ==> !Serves(h, d, answers[j]) || j in refused
      {
        if answers[i].Some? {
          var ok := PutKeyed(d, answers[i].value, i in refused);
          if ok {
            assert FirstServing(h, d, answers, refused, i);
            return true;
          }
        }
      }
      return false;
    }

    /** As `Fetch`, but nothing is kept. */
    method FetchUncached(d: Digest, answers: seq<Answer>) returns (r: Result<Bytes, GetError>)
      ensures r.Ok? ==> exists i: nat :: FirstServing(h, d, answers, {}, i) && r.value == answers[i].value
      ensures r.Err? ==> r == Err(NotFound) && !AnyServing(h, d, answers, {})
    {
      for i := 0 to |answers|
        invariant forall j :: 0 <= j < i ==> !Serves(h, d, answers[j])
      {
        if answers[i].Some? && Verifies(h, d, answers[i].value) {
          assert FirstServing(h, d, answers, {}, i);
          return Ok(answers[i].value);
        }
      }
      return Err(NotFound);
    }

    method GetLocal(d: Digest) returns (r: Result<Bytes, GetError>)
      ensures r == (if d !in local then Err(NotFound)
                    else if Verifies(h, d, local[d]) then Ok(local[d]) else Err(Corrupt))
    {
      if d !in local {
        return Err(NotFound);
      }
      return if Verifies(h, d, local[d]) then Ok(local[d]) else Err(Corrupt);
    }

    /** Whatever is returned verifies. A corrupt local copy is an error that no peer papers
        over; a miss is answered exactly when some peer serves verifying bytes that can be
        stored, where they are to be stored; and only a store that caches fills keeps them. */
    method Get(d: Digest, answers: seq<Answer>, refused: set<nat>) returns (r: Result<Bytes, GetError>)
      modifies this`local
      ensures r.Ok? ==> h(d.algo, r.value) == d.bytes
      ensures r == Err(Corrupt) <==> d in old(local) && h(d.algo, old(local)[d]) != d.bytes
      ensures r.Ok? <==> if d in old(local) then h(d.algo, old(local)[d]) == d.bytes
                         else exists i :: && 0 <= i < |answers| && answers[i].Some? && h(d.algo, answers[i].value) == d.bytes
                                          && (cacheFills ==> i !in refused)
      ensures r.Ok? && d in old(local) ==> r.value == old(local)[d]
      ensures r.Ok? && d !in old(local) ==>
                exists i: nat :: FirstServing(h, d, answers, if cacheFills then refused else {}, i) && r.value == answers[i].value
      ensures local == if r.Ok? && d !in old(local) && cacheFills then old(local)[d := r.value] else old(local)
    {
      r := GetLocal(d);
      if r != Err(NotFound) {
        assert local == old(local);
      } else if cacheFills {
        var found := Fetch(d, answers, refused);
        if found {
          r := GetLocal(d);
        }
      } else {
        r := FetchUncached(d, answers);
      }
    }
  }
}
