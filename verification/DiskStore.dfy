/** The on-disk store's own procedures: streaming a put to a scratch file, repairing a corrupt
    blob, and settling the siblings an earlier release left behind. */
module DiskStore {
  import opened Core
  import opened Digests
  import opened Text
  import opened Settle
  import LedgerStore

  function Home(d: Digest): Place {
    Shelf(d.algo, Hex(d.bytes)[..2], Hex(d.bytes)[2..])
  }

  // ---- Sibling names ----

  const MARKER: Bytes := Ascii(".reclaim")

  /** The last place where the marker starts, or the length when it is nowhere. */
  function LastMarker(t: Bytes): (n: nat)
    ensures n <= |t|
    ensures n < |t| ==> MARKER <= t[n..]
    ensures forall m :: n < m < |t| ==> !(MARKER <= t[m..])
    ensures n == |t| ==> forall m :: 0 <= m < |t| ==> !(MARKER <= t[m..])
  {
    if |t| == 0 then 0
    else
      var rest := LastMarker(t[1..]);
      assert forall m | 1 <= m < |t| :: t[m..] == t[1..][m - 1..];
      assert t[0..] == t;
      if rest < |t| - 1 then rest + 1 else if MARKER <= t then 0 else |t|
  }

  predicate AllDigits(t: Bytes) {
    forall i :: 0 <= i < |t| ==> '0' as int <= t[i] <= '9' as int
  }

  /** The digest a shard entry is a set-aside copy of, when its name says so. */
  function SiblingOf(p: Place): Option<Digest> {
    if !p.Shelf? then None
    else
      var n := LastMarker(p.name);
      if n == |p.name| then None
      else
        var number := p.name[n + |MARKER|..];
        if number == [] || !AllDigits(number) then None
        else match Parse(Name(p.algo) + [COLON] + (p.shard + p.name[..n]))
          case Ok(d) => Some(d)
          case Err(_) => None
  }

  /** The entry is named `rest`, then `.reclaim`, then a decimal number, and its shard and `rest`
      together are the hex of `d`. */
  ghost predicate NumberedCopy(p: Place, d: Digest, rest: Bytes, number: Bytes) {
    && p.Shelf? && p.algo == d.algo && p.name == rest + Ascii(".reclaim") + number
    && number != [] && (forall i :: 0 <= i < |number| ==> 0x30 <= number[i] <= 0x39)
    && Fold(p.shard + rest) == Hex(d.bytes)
  }

  lemma LastAt(t: Bytes, m: nat)
    requires m < |t| && MARKER <= t[m..] && forall j :: m < j < |t| ==> t[j] != MARKER[0]
    ensures LastMarker(t) == m
  {
    assert forall j | 0 <= j < |t| && MARKER <= t[j..] :: t[j] == MARKER[0];
  }

  lemma MarkerAt(rest: Bytes, number: Bytes)
    requires forall i :: 0 <= i < |number| ==> 0x30 <= number[i] <= 0x39
    ensures LastMarker(rest + Ascii(".reclaim") + number) == |rest|
  {
    var tail := MARKER + number;
    var t := rest + MARKER + number;
    assert t == rest + tail && t[|rest|..] == tail && MARKER <= tail;
    MarkerOnce(number);
    forall j | |rest| < j < |t| ensures t[j] != MARKER[0] {
      assert t[j] == tail[j - |rest|];
    }
    LastAt(t, |rest|);
  }

  lemma MarkerOnce(number: Bytes)
    requires forall i :: 0 <= i < |number| ==> 0x30 <= number[i] <= 0x39
    ensures forall i :: 0 < i < |MARKER + number| ==> (MARKER + number)[i] != MARKER[0]
  {
  }

  lemma NumberedIsSibling(p: Place, d: Digest, rest: Bytes, number: Bytes)
    requires NumberedCopy(p, d, rest, number)
    ensures SiblingOf(p) == Some(d)
  {
    MarkerAt(rest, number);
    assert p.name[..|rest|] == rest && p.name[|rest| + |MARKER|..] == number;
    ParseNamed(p.algo, p.shard + rest, d);
  }

  lemma SiblingIsNumbered(p: Place, d: Digest)
    requires SiblingOf(p) == Some(d)
    ensures NumberedCopy(p, d, p.name[..LastMarker(p.name)], p.name[LastMarker(p.name) + |MARKER|..])
  {
    var n := LastMarker(p.name);
    var rest, number := p.name[..n], p.name[n + |MARKER|..];
    assert p.name == p.name[..n] + p.name[n..] == rest + MARKER + number;
    ParseNamed(p.algo, p.shard + rest, d);
  }

  /** Exactly such entries are taken for set-aside copies of `d`. */
  lemma SiblingExact(p: Place, d: Digest)
    ensures SiblingOf(p) == Some(d) <==> exists rest, number :: NumberedCopy(p, d, rest, number)
  {
    if SiblingOf(p) == Some(d) {
      SiblingIsNumbered(p, d);
    }
    forall rest, number | NumberedCopy(p, d, rest, number) ensures SiblingOf(p) == Some(d) {
      NumberedIsSibling(p, d, rest, number);
    }
  }

  lemma HomeIsNoSibling(d: Digest)
    ensures SiblingOf(Home(d)) == None
  {
    HexIsLower(d.bytes);
    var name := Home(d).name;
    assert forall i | 0 <= i < |name| :: LowerHex(name[i]) by {
      assert forall i | 0 <= i < |name| :: name[i] == Hex(d.bytes)[i + 2];
    }
    assert forall n | 0 <= n < |name| && MARKER <= name[n..] :: name[n] == MARKER[0];
  }

  lemma HomesDiffer(d: Digest, e: Digest)
    requires Home(d) == Home(e)
    ensures d == e
  {
    assert Hex(d.bytes) == Hex(d.bytes)[..2] + Hex(d.bytes)[2..];
    assert Hex(e.bytes) == Hex(e.bytes)[..2] + Hex(e.bytes)[2..];
    HexRoundTrip(d.bytes);
    HexRoundTrip(e.bytes);
  }

  function DiskLayout(h: Hash): Layout {
    Layout(h, SiblingOf, Home)
  }

  lemma DiskLayoutSound(h: Hash)
    ensures Sound(DiskLayout(h))
  {
    forall d ensures SiblingOf(Home(d)) == None {
      HomeIsNoSibling(d);
    }
    forall d, e | Home(d) == Home(e) ensures d == e {
      HomesDiffer(d, e);
    }
  }

  /** The sibling can be read and removed, and when it is healthy the canonical file is absent or
      can be read too. */
  predicate Settles(h: Hash, files: Files, refused: set<Place>, p: Place, d: Digest)
    requires p in files
  {
    && files[p].Data? && p !in refused
    && (Verifies(h, d, files[p].bytes) ==> Home(d) in files ==> files[Home(d)].Data?)
  }

  /** Every sibling among the files settles. */
  ghost predicate AllSettle(h: Hash, files: Files, refused: set<Place>) {
    forall p, d :: p in files && SiblingOf(p) == Some(d) ==> Settles(h, files, refused, p, d)
  }

  lemma OneFails(h: Hash, files: Files, refused: set<Place>, p: Place, d: Digest)
    requires p in files && SiblingOf(p) == Some(d) && (Blocked(DiskLayout(h), files, p, d) || p in refused)
    ensures !AllSettle(h, files, refused)
  {
    assert !Settles(h, files, refused, p, d);
  }

  lemma OnePasses(h: Hash, files: Files, refused: set<Place>, p: Place, d: Digest)
    requires p in files && SiblingOf(p) == Some(d) && !Blocked(DiskLayout(h), files, p, d) && p !in refused
    ensures Passes(h, files, refused, p)
  {
  }

  /** The entry is no sibling, or one that settles. */
  predicate Passes(h: Hash, files: Files, refused: set<Place>, p: Place) {
    p in files ==> match SiblingOf(p) case None => true case Some(d) => Settles(h, files, refused, p, d)
  }

  lemma AllPass(h: Hash, files: Files, refused: set<Place>, listing: seq<Place>)
    requires forall p: Place :: p in files && p.Shelf? ==> p in listing
    requires forall j :: 0 <= j < |listing| ==> Passes(h, files, refused, listing[j])
    ensures AllSettle(h, files, refused)
  {
    forall p, d | p in files && SiblingOf(p) == Some(d) ensures Settles(h, files, refused, p, d) {
      var j :| 0 <= j < |listing| && listing[j] == p;
      assert Passes(h, files, refused, listing[j]);
    }
  }

  // ---- Enumeration ----

  /** The digest under which a shard entry is enumerated, when its name parses. */
  function EnumeratedAs(p: Place): Option<Digest> {
    if !p.Shelf? then None
    else match Parse(Name(p.algo) + [COLON] + (p.shard + p.name))
      case Ok(d) => Some(d)
      case Err(_) => None
  }

  /** Every entry whose name parses, with its size. */
  function Enumerate(entries: seq<(Place, nat)>): seq<LedgerStore.Blob<Digest>> {
    if |entries| == 0 then []
    else
      var rest := Enumerate(entries[1..]);
      match EnumeratedAs(entries[0].0)
      case None => rest
      case Some(d) => [LedgerStore.Blob(d, entries[0].1)] + rest
  }

  /** Exactly the entries whose shard and name together are the hex of `d`, in either case, are
      enumerated as `d`. */
  lemma EnumeratedExact(p: Place, d: Digest)
    ensures EnumeratedAs(p) == Some(d) <==> p.Shelf? && p.algo == d.algo && Fold(p.shard + p.name) == Hex(d.bytes)
  {
    if p.Shelf? {
      ParseNamed(p.algo, p.shard + p.name, d);
    }
  }

  /** A second directory for the same shard, spelt in upper case. */
  function Alias(d: Digest): Place {
    Shelf(d.algo, Ascii("AB"), Hex(d.bytes)[2..])
  }

  lemma AliasFolds(d: Digest)
    requires d.bytes[0] == 0xab
    ensures Home(d).shard == Ascii("ab") && Home(d) != Alias(d)
    ensures Fold(Ascii("AB") + Hex(d.bytes)[2..]) == Hex(d.bytes)
  {
    var hex := Hex(d.bytes);
    assert hex[..2] == [HexDigit(0xab / 16), HexDigit(0xab % 16)] == Ascii("ab");
    assert Ascii("AB")[0] != Ascii("ab")[0];
    HexIsLower(d.bytes);
    assert hex == hex[..2] + hex[2..];
    var t := Ascii("AB") + hex[2..];
    forall i | 0 <= i < |t| ensures FoldChar(t[i]) == hex[i] {
      if i >= 2 {
        assert t[i] == hex[2..][i - 2] == hex[i];
      }
    }
  }

  /** Names are read in either case, so a blob that sits in both directories is enumerated
      twice under one digest, and the books such a listing is opened with do not balance. */
  lemma AliasUnbalances(d: Digest, size: nat, other: nat)
    requires d.bytes[0] == 0xab && size > 0
    ensures Home(d) != Alias(d)
    ensures Enumerate([(Home(d), size), (Alias(d), other)]) == [LedgerStore.Blob(d, size), LedgerStore.Blob(d, other)]
    ensures !LedgerStore.NoneReplaced(Enumerate([(Home(d), size), (Alias(d), other)]))
  {
    AliasFolds(d);
    HexIsLower(d.bytes);
    FoldLower(Hex(d.bytes));
    assert Hex(d.bytes)[..2] + Hex(d.bytes)[2..] == Hex(d.bytes);
    EnumeratedExact(Home(d), d);
    EnumeratedExact(Alias(d), d);
    EnumerateTwo((Home(d), size), (Alias(d), other), d);
    var blobs := [LedgerStore.Blob(d, size), LedgerStore.Blob(d, other)];
    assert blobs[0].key == blobs[1].key && blobs[0].size > 0;
  }

  lemma EnumerateTwo(x: (Place, nat), y: (Place, nat), d: Digest)
    requires EnumeratedAs(x.0) == Some(d) && EnumeratedAs(y.0) == Some(d)
    ensures Enumerate([x, y]) == [LedgerStore.Blob(d, x.1), LedgerStore.Blob(d, y.1)]
  {
    assert [x, y][1..] == [y] && [y][1..] == [];
    assert Enumerate([y]) == [LedgerStore.Blob(d, y.1)] + [];
  }

  // ---- Streams ----

  /** What goes wrong during one put: reading its source, writing or renaming the scratch
      file, or cleaning up afterwards. */
  datatype Faults = Faults(source: bool, disk: bool, rename: bool, cleanup: bool)

  datatype Error = Internal | InvalidArgument | BlobNotFound

  class DiskCas {
    const h: Hash
    var files: Files
    var counter: nat

    /** Files other than scratch files. */
    ghost function Kept(): Files
      reads this
    {
      map p | p in files && !p.Scratch? :: files[p]
    }

    /** Opening first removes every scratch file. */
    constructor (h: Hash, files: Files)
      ensures this.h == h && Kept() == this.files
      ensures forall p: Place :: if p.Scratch? then p !in this.files else Same(files, this.files, p)
    {
      this.h := h;
      this.files := map p | p in files && !p.Scratch? :: files[p];
      this.counter := 0;
    }

    /** Opening as a whole: drop scratch files, settle siblings, and hand over a store only if
        that succeeds. Then nothing but blobs and set-aside copies is left, every digest with
        any healthy copy has it at home, and a healthy file at home is as it was. */
    static method Open(h: Hash, files: Files, listing: seq<Place>, refused: set<Place>) returns (r: Result<DiskCas, Error>)
      requires forall p: Place :: p in files && p.Shelf? <==> p in listing
      requires forall i, j :: 0 <= i < j < |listing| ==> listing[i] != listing[j]
      ensures r.Ok? <==> AllSettle(h, files, refused)
      ensures r.Ok? ==> fresh(r.value) && r.value.h == h
      ensures r.Ok? ==> forall p: Place :: p in r.value.files ==> !p.Scratch? && SiblingOf(p) == None
      ensures r.Ok? ==> forall d :: HasCopy(DiskLayout(h), files, d) <==> Good(DiskLayout(h), r.value.files, Home(d), d)
      ensures r.Ok? ==> forall d :: Good(DiskLayout(h), files, Home(d), d) ==>
                Home(d) in r.value.files && r.value.files[Home(d)] == files[Home(d)]
    {
      var cas := new DiskCas(h, files);
      ghost var swept := cas.files;
      SweepKeepsCopies(h, files, swept);
      SweepKeepsSiblings(h, files, swept, refused);
      var settled := cas.SettleLegacySiblings(listing, refused);
      match settled
      case Err(e) => return Err(e);
      case Ok(_) =>
        NoScratch(h, swept, cas.files);
        return Ok(cas);
    }

    /** Reads the canonical file. */
    method VerifyHome(d: Digest) returns (r: Result<bool, Error>)
      ensures r == (if Home(d) !in files then Err(BlobNotFound)
                    else if files[Home(d)].Unreadable? then Err(Internal)
                    else Ok(Verifies(h, d, files[Home(d)].bytes)))
    {
      if Home(d) !in files {
        return Err(BlobNotFound);
      }
      match files[Home(d)]
      case Unreadable => return Err(Internal);
      case Data(bytes) => return Ok(Verifies(h, d, bytes));
    }

    method SettleSibling(d: Digest, p: Place, refused: set<Place>) returns (r: Result<(), Error>)
      requires p in files
      modifies this`files
      ensures r.Ok? <==> !Blocked(DiskLayout(h), old(files), p, d) && p !in refused
      ensures files == if r.Ok? then Settled(DiskLayout(h), old(files), p, d) else old(files)
    {
      if files[p].Unreadable? {
        return Err(Internal);
      }
      var healthy := Verifies(h, d, files[p].bytes);
      var move := false;
      if healthy {
        var home := VerifyHome(d);
        match home
        case Ok(fine) => move := !fine;
        case Err(e) =>
          if e != BlobNotFound {
            return Err(e);
          }
          move := true;
      }
      if p in refused {
        return Err(Internal);
      }
      if move {
        files := (files - {p})[Home(d) := files[p]];
      } else {
        files := files - {p};
      }
      return Ok(());
    }

    /** Walks every shard entry. Whether it succeeds or stops at the first sibling it cannot
        settle, no digest gains or loses its last healthy copy and no healthy canonical file
        is replaced; on success no sibling remains. */
    method SettleLegacySiblings(listing: seq<Place>, refused: set<Place>) returns (r: Result<(), Error>)
      requires forall p :: p in files && p.Shelf? <==> p in listing
      requires forall i, j :: 0 <= i < j < |listing| ==> listing[i] != listing[j]
      modifies this`files
      ensures r.Ok? <==> AllSettle(h, old(files), refused)
      ensures r.Ok? ==> forall p :: p in files ==> SiblingOf(p) == None
      ensures r.Ok? ==> forall d :: HasCopy(DiskLayout(h), old(files), d) <==> Good(DiskLayout(h), files, Home(d), d)
      ensures forall d :: HasCopy(DiskLayout(h), old(files), d) <==> HasCopy(DiskLayout(h), files, d)
      ensures forall d :: Good(DiskLayout(h), old(files), Home(d), d) ==> Home(d) in files && files[Home(d)] == old(files)[Home(d)]
      ensures forall p :: SiblingOf(p) == None ==> Same(old(files), files, p) || Restored(DiskLayout(h), old(files), files, p)
    {
      ghost var was, l := files, DiskLayout(h);
      DiskLayoutSound(h);
      for i := 0 to |listing|
        invariant Settling(l, was, files, listing[i..])
        invariant forall j :: 0 <= j < i ==> Passes(h, was, refused, listing[j])
      {
        var p := listing[i];
        assert listing[i..][0] == p && listing[i..][1..] == listing[i + 1..];
        match SiblingOf(p)
        case None =>
          SettlingSkip(l, was, files, listing[i..]);
        case Some(d) =>
          assert p in listing[i..];
          assert Same(was, files, p);
          BlockedStays(l, was, files, listing[i..], p, d);
          ghost var now := files;
          var settled := SettleSibling(d, p, refused);
          if settled.Err? {
            OneFails(h, was, refused, p, d);
            forall e | Good(DiskLayout(h), was, Home(e), e) ensures Same(was, files, Home(e)) {
              HealthyStays(l, was, files, listing[i..], e);
            }
            return settled;
          }
          OnePasses(h, was, refused, p, d);
          SettlingStep(l, was, now, listing[i..], d);
      }
      AllPass(h, was, refused, listing);
      assert listing[|listing|..] == [];
      SettlingEnd(l, was, files);
      return Ok(());
    }

    /** Streams the source into a fresh scratch file, hashing as it goes. A failure leaves at
        most the scratch file. */
    method WriteTmp(chunks: seq<Bytes>, algo: Algo, faults: Faults) returns (r: Result<(Place, Digest), Error>)
      modifies this
      ensures Kept() == old(Kept())
      ensures r.Ok? <==> !faults.source && !faults.disk
      ensures r.Ok? ==> r.value.0.Scratch? && r.value.0 in files && files[r.value.0] == Data(Flat(chunks))
      ensures r.Ok? ==> r.value.1 == Compute(h, algo, Flat(chunks))
      ensures r.Err? && !faults.cleanup ==> files == old(files) - {Scratch(old(counter))}
    {
      var tmp := Scratch(counter);
      counter := counter + 1;
      files := files[tmp := Data([])];
      var hashed: Bytes := [];
      for k := 0 to |chunks|
        invariant hashed == Flat(chunks[..k])
        invariant files == old(files)[tmp := Data(hashed)]
      {
        FlatSnoc(chunks[..k], chunks[k]);
        assert chunks[..k] + [chunks[k]] == chunks[..k + 1];
        hashed := hashed + chunks[k];
        files := files[tmp := Data(hashed)];
      }
      assert chunks[..|chunks|] == chunks;
      if faults.source || faults.disk {
        if !faults.cleanup {
          files := files - {tmp};
        }
        return Err(Internal);
      }
      return Ok((tmp, Compute(h, algo, hashed)));
    }

    /** A keyed put lands exactly the bytes it was given, exactly when they hash to the digest
        expected and nothing fails; otherwise every file but a scratch file is as before. */
    method PutKeyed(expected: Digest, chunks: seq<Bytes>, faults: Faults) returns (r: Result<(), Error>)
      modifies this
      ensures r.Ok? <==> Verifies(h, expected, Flat(chunks)) && !faults.source && !faults.disk && !faults.rename
      ensures Kept() == if r.Ok? then old(Kept())[Home(expected) := Data(Flat(chunks))] else old(Kept())
      ensures r == Err(InvalidArgument) <==> !Verifies(h, expected, Flat(chunks)) && !faults.source && !faults.disk
    {
      var written := WriteTmp(chunks, expected.algo, faults);
      if written.Err? {
        return Err(Internal);
      }
      var (tmp, actual) := written.value;
      if actual != expected {
        if !faults.cleanup {
          files := files - {tmp};
        }
        return Err(InvalidArgument);
      }
      if faults.rename {
        if !faults.cleanup {
          files := files - {tmp};
        }
        return Err(Internal);
      }
      files := (files - {tmp})[Home(expected) := files[tmp]];
      return Ok(());
    }

    /** Under the commit lock: unlinks the canonical file only when it fails verification. */
    method ReclaimIfCorrupt(d: Digest, refused: bool) returns (r: Result<bool, Error>)
      modifies this`files
      ensures r == Ok(true) <==> Home(d) in old(files) && old(files)[Home(d)].Data? && !Good(DiskLayout(h), old(files), Home(d), d) && !refused
      ensures r.Err? <==> Home(d) in old(files) && !Good(DiskLayout(h), old(files), Home(d), d) && (old(files)[Home(d)].Unreadable? || refused)
      ensures files == if r == Ok(true) then old(files) - {Home(d)} else old(files)
    {
      var verdict := VerifyHome(d);
      match verdict
      case Ok(fine) =>
        if fine {
          return Ok(false);
        }
        if refused {
          return Err(Internal);
        }
        files := files - {Home(d)};
        return Ok(true);
      case Err(e) =>
        if e == BlobNotFound {
          return Ok(false);
        }
        return Err(e);
    }
  }

  lemma SweepKeepsCopies(h: Hash, files: Files, swept: Files)
    requires forall p: Place :: if p.Scratch? then p !in swept else Same(files, swept, p)
    ensures forall d :: Good(DiskLayout(h), files, Home(d), d) <==> Good(DiskLayout(h), swept, Home(d), d)
    ensures forall d :: HasCopy(DiskLayout(h), files, d) <==> HasCopy(DiskLayout(h), swept, d)
  {
    forall d ensures Good(DiskLayout(h), files, Home(d), d) <==> Good(DiskLayout(h), swept, Home(d), d) {
      assert Same(files, swept, Home(d));
    }
    forall d ensures GoodSibling(DiskLayout(h), files, d) <==> GoodSibling(DiskLayout(h), swept, d) {
      SiblingsSwept(DiskLayout(h), files, swept, d);
    }
  }

  lemma SweepKeepsSiblings(h: Hash, files: Files, swept: Files, refused: set<Place>)
    requires forall p: Place :: if p.Scratch? then p !in swept else Same(files, swept, p)
    ensures AllSettle(h, files, refused) <==> AllSettle(h, swept, refused)
  {
    forall p, d | SiblingOf(p) == Some(d) && p in files
      ensures p in swept && (Settles(h, files, refused, p, d) <==> Settles(h, swept, refused, p, d))
    {
      assert Same(files, swept, p) && Same(files, swept, Home(d));
    }
    assert forall p :: p in swept ==> Same(files, swept, p);
  }

  lemma SiblingsSwept(l: Layout, files: Files, swept: Files, d: Digest)
    requires forall p :: l.role(p).Some? ==> Same(files, swept, p)
    ensures GoodSibling(l, files, d) <==> GoodSibling(l, swept, d)
  {
    if GoodSibling(l, files, d) {
      var p :| p in files && l.role(p) == Some(d) && Good(l, files, p, d);
      assert Good(l, swept, p, d);
    }
    if GoodSibling(l, swept, d) {
      var p :| p in swept && l.role(p) == Some(d) && Good(l, swept, p, d);
      assert Good(l, files, p, d);
    }
  }

  lemma NoScratch(h: Hash, was: Files, now: Files)
    requires forall p: Place :: p in was ==> !p.Scratch?
    requires forall p :: SiblingOf(p) == None ==> Same(was, now, p) || Restored(DiskLayout(h), was, now, p)
    ensures forall p: Place :: p in now ==> !p.Scratch?
  {
    forall p: Place | p.Scratch? ensures p !in now {
      assert SiblingOf(p) == None;
    }
  }
}
