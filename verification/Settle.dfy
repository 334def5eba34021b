/** Settling set-aside copies of blobs, for any layout of the files. */
module Settle {
  import opened Core
  import opened Digests

  /** A file below the root: a shard entry, an in-flight write or a quarantined copy. */
  datatype Place =
    | Shelf(algo: Algo, shard: Bytes, name: Bytes)
    | Scratch(id: nat)
    | Aside(algo: Algo, hex: Bytes, slot: nat)

  datatype Content = Data(bytes: Bytes) | Unreadable

  type Files = map<Place, Content>

  /** Which files are set-aside copies, and of what; and where each blob belongs. */
  datatype Layout = Layout(h: Hash, role: Place -> Option<Digest>, home: Digest -> Place)

  ghost predicate Sound(l: Layout) {
    && (forall d :: l.role(l.home(d)) == None)
    && (forall d, e :: l.home(d) == l.home(e) ==> d == e)
  }

  predicate Good(l: Layout, files: Files, p: Place, d: Digest) {
    p in files && files[p].Data? && Verifies(l.h, d, files[p].bytes)
  }

  ghost predicate GoodSibling(l: Layout, files: Files, d: Digest) {
    exists p :: p in files && l.role(p) == Some(d) && Good(l, files, p, d)
  }

  /** A healthy copy of `d` is somewhere the store looks. */
  ghost predicate HasCopy(l: Layout, files: Files, d: Digest) {
    Good(l, files, l.home(d), d) || GoodSibling(l, files, d)
  }

  predicate Blocked(l: Layout, files: Files, p: Place, d: Digest)
    requires p in files
  {
    files[p].Unreadable? || (Good(l, files, p, d) && l.home(d) in files && files[l.home(d)].Unreadable?)
  }

  /** One sibling settled: moved home when it is healthy and home is not, dropped otherwise. */
  function Settled(l: Layout, files: Files, p: Place, d: Digest): Files
    requires p in files
  {
    if Good(l, files, p, d) && !Good(l, files, l.home(d), d) then (files - {p})[l.home(d) := files[p]]
    else files - {p}
  }

  /** `p` holds a copy that came from a sibling, where there was none before or a corrupt one. */
  ghost predicate Restored(l: Layout, was: Files, now: Files, p: Place) {
    exists q, d :: q in was && l.role(q) == Some(d) && Good(l, was, q, d)
      && p == l.home(d) && p in now && now[p] == was[q] && !Good(l, was, p, d)
      && (p in was ==> was[p].Data?)
  }

  ghost predicate Same(was: Files, now: Files, p: Place) {
    if p in was then p in now && now[p] == was[p] else p !in now
  }

  /** What holds between the files at the start and the files part way through. */
  ghost predicate Settling(l: Layout, was: Files, now: Files, todo: seq<Place>) {
    && (forall p :: l.role(p).Some? && p in now ==> p in todo)
    && (forall p :: l.role(p).Some? && p in todo ==> Same(was, now, p))
    && (forall p :: l.role(p).None? ==> Same(was, now, p) || Restored(l, was, now, p))
    && (forall d :: HasCopy(l, was, d) <==> HasCopy(l, now, d))
  }

  lemma SettledCopies(l: Layout, files: Files, p: Place, d: Digest, e: Digest)
    requires Sound(l) && p in files && l.role(p) == Some(d) && !Blocked(l, files, p, d)
    ensures HasCopy(l, files, e) <==> HasCopy(l, Settled(l, files, p, d), e)
  {
    var now := Settled(l, files, p, d);
    assert forall q :: q in now && l.role(q).Some? ==> q in files && now[q] == files[q];
    if GoodSibling(l, files, e) {
      var q :| q in files && l.role(q) == Some(e) && Good(l, files, q, e);
      assert q == p || (q in now && Good(l, now, q, e));
    }
    if GoodSibling(l, now, e) {
      var q :| q in now && l.role(q) == Some(e) && Good(l, now, q, e);
      assert Good(l, files, q, e);
    }
  }

  lemma SettledPlaces(l: Layout, was: Files, now: Files, todo: seq<Place>, p: Place, d: Digest, x: Place)
    requires Sound(l) && |todo| > 0 && todo[0] == p && l.role(p) == Some(d) && l.role(x) == None
    requires p in now && !Blocked(l, now, p, d) && Settling(l, was, now, todo)
    ensures var next := Settled(l, now, p, d); Same(was, next, x) || Restored(l, was, next, x)
  {
    var next := Settled(l, now, p, d);
    assert Same(was, now, p);
    assert x == l.home(d) || Same(now, next, x);
  }

  /** Whether a sibling can be settled does not change while others are. */
  lemma BlockedStays(l: Layout, was: Files, now: Files, todo: seq<Place>, p: Place, d: Digest)
    requires Sound(l) && Settling(l, was, now, todo) && p in todo && l.role(p) == Some(d) && p in now && p in was
    ensures Blocked(l, was, p, d) <==> Blocked(l, now, p, d)
  {
    assert Same(was, now, p);
    assert Same(was, now, l.home(d)) || Restored(l, was, now, l.home(d));
  }

  lemma SettlingStep(l: Layout, was: Files, now: Files, todo: seq<Place>, d: Digest)
    requires Sound(l) && |todo| > 0 && l.role(todo[0]) == Some(d) && todo[0] !in todo[1..]
    requires todo[0] in now && !Blocked(l, now, todo[0], d) && Settling(l, was, now, todo)
    ensures Settling(l, was, Settled(l, now, todo[0], d), todo[1..])
  {
    var p := todo[0];
    var next := Settled(l, now, p, d);
    forall x | l.role(x).None? ensures Same(was, next, x) || Restored(l, was, next, x) {
      SettledPlaces(l, was, now, todo, p, d, x);
    }
    forall e ensures HasCopy(l, was, e) <==> HasCopy(l, next, e) {
      SettledCopies(l, now, p, d, e);
    }
    assert forall x :: l.role(x).Some? && x != p ==> Same(now, next, x);
    assert forall x :: x in todo[1..] ==> x in todo;
  }

  lemma SettlingSkip(l: Layout, was: Files, now: Files, todo: seq<Place>)
    requires Sound(l) && |todo| > 0 && l.role(todo[0]) == None && Settling(l, was, now, todo)
    ensures Settling(l, was, now, todo[1..])
  {
    assert forall x :: x in todo[1..] ==> x in todo;
    assert forall x :: x in todo ==> x == todo[0] || x in todo[1..];
  }

  /** No sibling is left, every digest with any healthy copy has one at home, and a healthy
      home copy is the one that was there. */
  lemma SettlingEnd(l: Layout, was: Files, now: Files)
    requires Sound(l) && Settling(l, was, now, [])
    ensures forall p :: p in now ==> l.role(p) == None
    ensures forall d :: HasCopy(l, was, d) <==> Good(l, now, l.home(d), d)
    ensures forall d :: Good(l, was, l.home(d), d) ==> now[l.home(d)] == was[l.home(d)]
  {
    forall d | Good(l, was, l.home(d), d) ensures l.home(d) in now && now[l.home(d)] == was[l.home(d)] {
      HealthyStays(l, was, now, [], d);
    }
  }

  lemma HealthyStays(l: Layout, was: Files, now: Files, todo: seq<Place>, d: Digest)
    requires Sound(l) && Settling(l, was, now, todo) && Good(l, was, l.home(d), d)
    ensures Same(was, now, l.home(d))
  {
  }
}
