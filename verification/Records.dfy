/** Record marking (section 11 of RFC 5531): a message crosses a byte stream as fragments, each
    behind a word that holds its length and whether it is the last. */
module Records {
  import opened Core
  import opened Words
  import opened Canonical
  import opened Xdr
  import opened Rpc

  const LAST: nat := 0x8000_0000

  /** A word codec that reads exactly what it writes, in four bytes. */
  ghost predicate Words4(w: Codec<u32>) {
    Exact(w) && (forall n :: w.ok(n)) && (forall n :: |w.write(n)| == 4)
  }

  lemma Word32Is4()
    ensures Words4(Word32())
  {
    Word32Exact();
  }

  type Piece = p: Bytes | |p| < LAST

  function Header(p: Piece, last: bool): u32 {
    |p| + if last then LAST else 0
  }

  function Framed(w: Codec<u32>, p: Piece, last: bool): Bytes {
    w.write(Header(p, last)) + p
  }

  /** On the stream: four bytes, high byte first, that hold the length with the top bit for the
      last, and then the data. */
  lemma FramedBytes(p: Piece, last: bool)
    ensures var b := Framed(Word32(), p, last);
            && |b| == 4 + |p| && b[4..] == p
            && FromBE(b[..4]) == |p| + if last then 0x8000_0000 else 0
  {
    Widths();
    BERoundTrip(Header(p, last), 4);
    assert Framed(Word32(), p, last)[..4] == BE(Header(p, last), 4);
  }

  /** A record cut into pieces, the last one marked. */
  function Marked(w: Codec<u32>, pieces: seq<Piece>): Bytes {
    if |pieces| == 0 then [] else Framed(w, pieces[0], |pieces| == 1) + Marked(w, pieces[1..])
  }

  lemma FirstPiece(w: Codec<u32>, p: Piece, more: seq<Piece>, gathered: Bytes, tail: Bytes)
    ensures Marked(w, [p] + more) + tail == Framed(w, p, more == []) + (Marked(w, more) + tail)
    ensures gathered + Flat([p] + more) == gathered + p + Flat(more)
  {
    assert ([p] + more)[1..] == more;
  }

  /** One fragment off the stream: its data and whether it is the last. */
  function TakeFragment(w: Codec<u32>, s: Bytes): Read<(Piece, bool)> {
    match w.read(s)
    case Bad => Bad
    case Got(head, rest) =>
      var n, last := head % LAST, head >= LAST;
      if |rest| < n then Bad else Got((rest[..n], last), rest[n..])
  }

  lemma TakeExact(w: Codec<u32>, s: Bytes, p: Piece, last: bool, rest: Bytes)
    requires Words4(w)
    ensures TakeFragment(w, s) == Got((p, last), rest) <==> s == Framed(w, p, last) + rest
  {
    var head := Header(p, last);
    assert Framed(w, p, last) + rest == w.write(head) + (p + rest);
    assert w.read(s) == Got(head, p + rest) <==> s == w.write(head) + (p + rest);
    assert (p + rest)[..|p|] == p && (p + rest)[|p|..] == rest;
    match w.read(s)
    case Bad =>
    case Got(word, more) =>
      var n := word % LAST;
      if |more| >= n {
        assert more == more[..n] + more[n..];
      }
  }

  lemma TakeShrinks(w: Codec<u32>, s: Bytes)
    requires Words4(w) && TakeFragment(w, s).Got?
    ensures |TakeFragment(w, s).rest| < |s|
  {
    var (p, last) := TakeFragment(w, s).value;
    TakeExact(w, s, p, last, TakeFragment(w, s).rest);
  }

  /** Fragments gathered behind what is already there, up to the one marked last. */
  ghost function Reassembled(w: Codec<u32>, s: Bytes, gathered: Bytes): Read<Bytes>
    requires Words4(w)
    decreases |s|
  {
    match TakeFragment(w, s)
    case Bad => Bad
    case Got((p, last), rest) =>
      TakeShrinks(w, s);
      if last then Got(gathered + p, rest) else Reassembled(w, rest, gathered + p)
  }

  /** However a record is cut up, reassembly gives it back and leaves what follows. */
  lemma {:induction false} AnySplitReassembles(w: Codec<u32>, pieces: seq<Piece>, gathered: Bytes, tail: Bytes)
    requires Words4(w) && |pieces| > 0
    ensures Reassembled(w, Marked(w, pieces) + tail, gathered) == Got(gathered + Flat(pieces), tail)
  {
    var p, more := pieces[0], Marked(w, pieces[1..]) + tail;
    var s := Marked(w, pieces) + tail;
    assert s == Framed(w, p, |pieces| == 1) + more;
    TakeExact(w, s, p, |pieces| == 1, more);
    if |pieces| == 1 {
      assert Marked(w, pieces[1..]) == [] && [] + tail == tail && p + [] == p;
    } else {
      AnySplitReassembles(w, pieces[1..], gathered + p, tail);
      assert gathered + p + Flat(pieces[1..]) == gathered + (p + Flat(pieces[1..]));
    }
  }

  /** And nothing else reassembles: whatever comes out was cut up that way. */
  lemma {:induction false} OnlySplitsReassemble(w: Codec<u32>, s: Bytes, gathered: Bytes) returns (pieces: seq<Piece>)
    requires Words4(w) && Reassembled(w, s, gathered).Got?
    ensures |pieces| > 0
    ensures s == Marked(w, pieces) + Reassembled(w, s, gathered).rest
    ensures Reassembled(w, s, gathered).value == gathered + Flat(pieces)
    decreases |s|
  {
    var (p, last) := TakeFragment(w, s).value;
    var rest := TakeFragment(w, s).rest;
    TakeExact(w, s, p, last, rest);
    TakeShrinks(w, s);
    if last {
      pieces := [p] + [];
      FirstPiece(w, p, [], gathered, rest);
      assert [] + rest == rest && gathered + p + [] == gathered + p;
    } else {
      var more := OnlySplitsReassemble(w, rest, gathered + p);
      pieces := [p] + more;
      FirstPiece(w, p, more, gathered, Reassembled(w, s, gathered).rest);
    }
  }

  /** The buffer in which one connection gathers fragments. */
  class SocketMessageHandler {
    const w: Codec<u32>
    var curFragment: Bytes

    constructor ()
      ensures curFragment == [] && Words4(w)
    {
      w := Word32();
      curFragment := [];
      new;
      Word32Is4();
    }

    /** Read one fragment. A record that is complete is handed over and the buffer emptied. */
    method Read(s: Bytes) returns (record: Option<Bytes>, rest: Option<Bytes>)
      requires Words4(w)
      modifies this`curFragment
      ensures rest.None? <==> TakeFragment(w, s).Bad?
      ensures rest.None? ==> record == None
      ensures TakeFragment(w, s).Got? ==>
                var ((p, last), left) := (TakeFragment(w, s).value, TakeFragment(w, s).rest);
                && rest == Some(left)
                && (if last then record == Some(old(curFragment) + p) && curFragment == []
                    else record == None && curFragment == old(curFragment) + p)
    {
      match TakeFragment(w, s)
      case Bad =>
        return None, None;
      case Got((p, last), left) =>
        curFragment := curFragment + p;
        if last {
          record := Some(curFragment);
          curFragment := [];
        } else {
          record := None;
        }
        rest := Some(left);
    }

    /** Reading in a loop hands over exactly the record that was cut up. */
    method ReadRecord(s: Bytes) returns (record: Option<Bytes>, rest: Bytes)
      requires Words4(w)
      modifies this`curFragment
      ensures match Reassembled(w, s, old(curFragment))
              case Bad => record == None
              case Got(r, left) => record == Some(r) && rest == left && curFragment == []
    {
      rest := s;
      record := None;
      while record.None?
        invariant record.None? ==> Reassembled(w, rest, curFragment) == Reassembled(w, s, old(curFragment))
        invariant record.Some? ==> Reassembled(w, s, old(curFragment)) == Got(record.value, rest) && curFragment == []
        decreases record.None?, |rest|
      {
        var more;
        if TakeFragment(w, rest).Got? {
          TakeShrinks(w, rest);
        }
        record, more := Read(rest);
        if more.None? {
          return;
        }
        rest := more.value;
      }
    }
  }

  /** A reply is written as one fragment. */
  function WriteFragment(w: Codec<u32>, buf: Piece): Bytes {
    Framed(w, buf, true)
  }

  /** From message to stream and back: a message written out, sent as one record in any pieces
      and read back is that message, and the stream is left where it ended. */
  lemma MessageCrosses(m: RpcMsg, pieces: seq<Piece>, tail: Bytes)
    requires Writable(m) && |pieces| > 0 && Flat(pieces) == Message(Word32()).write(m)
    ensures Words4(Word32())
    ensures var got := Reassembled(Word32(), Marked(Word32(), pieces) + tail, []);
            got.Got? && Message(Word32()).read(got.value) == Got(m, []) && got.rest == tail
  {
    Word32Is4();
    AnySplitReassembles(Word32(), pieces, [], tail);
    assert [] + Flat(pieces) == Flat(pieces);
    MessageRoundTrip(m, []);
    assert Flat(pieces) + [] == Flat(pieces);
  }

  lemma WholeIsOnePiece(w: Codec<u32>, buf: Piece)
    ensures WriteFragment(w, buf) == Marked(w, [buf]) && Flat([buf]) == buf
  {
    assert [buf][1..] == [] && Framed(w, buf, true) + [] == Framed(w, buf, true);
    assert Flat([buf][1..]) == [] && buf + [] == buf;
  }
}
