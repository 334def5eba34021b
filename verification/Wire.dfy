/** The bytes of a remote procedure call message, word by word (sections 9 and 8.2 of RFC 5531),
    and that the codecs write exactly these. */
module Wire {
  import opened Core
  import opened Words
  import opened Canonical
  import opened Xdr
  import opened Rpc

  /** A word: four bytes, high byte first. */
  function W(n: u32): Bytes {
    BE(n, 4)
  }

  /** A length, the bytes, and zeros up to a multiple of four. */
  function Sized(x: Bytes): Bytes
    requires |x| < 0xFFFF_FFFF
  {
    W(|x|) + (x + seq((4 - |x| % 4) % 4, _ => 0))
  }

  function FlavorWord(f: AuthFlavor): u32 {
    match f case AuthNull => 0 case AuthUnix => 1 case AuthShort => 2 case AuthDes => 3
  }

  function StatWord(s: AuthStat): u32 {
    match s case BadCred => 1 case RejectedCred => 2 case BadVerf => 3 case RejectedVerf => 4 case TooWeak => 5
  }

  function AuthBytes(a: OpaqueAuth): Bytes
    requires Short(a)
  {
    W(FlavorWord(a.flavor)) + Sized(a.body)
  }

  /** Message type 0, the four call words, the credential and the verifier. */
  function CallBytes(xid: u32, c: CallBody): Bytes
    requires ShortCall(c)
  {
    W(xid) + W(0) + W(c.rpcvers) + W(c.prog) + W(c.vers) + W(c.proc) + AuthBytes(c.cred) + AuthBytes(c.verf)
  }

  /** What ends an accepted reply. */
  function AcceptBytes(a: AcceptBody): Bytes {
    match a
    case Success => W(0)
    case ProgUnavail => W(1)
    case ProgMismatch(i) => W(2) + (W(i.low) + W(i.high))
    case ProcUnavail => W(3)
    case GarbageArgs => W(4)
  }

  /** What ends a denied reply. */
  function DeniedBytes(d: RejectedReply): Bytes {
    match d
    case RpcMismatch(i) => W(0) + (W(i.low) + W(i.high))
    case AuthError(s) => W(1) + W(StatWord(s))
  }

  /** Message type 1, then 0 and the verifier when accepted, 1 when denied. */
  function ReplyBytes(xid: u32, r: ReplyBody): Bytes
    requires ShortReply(r)
  {
    match r
    case MsgAccepted(a) => W(xid) + W(1) + W(0) + AuthBytes(a.verf) + AcceptBytes(a.data)
    case MsgDenied(d) => W(xid) + W(1) + W(1) + DeniedBytes(d)
  }

  function MessageBytes(m: RpcMsg): Bytes
    requires Writable(m)
  {
    match m.body case Call(c) => CallBytes(m.xid, c) case Reply(r) => ReplyBytes(m.xid, r)
  }

  lemma OpaqueSized(x: Bytes)
    requires |x| < 0xFFFF_FFFF
    ensures Opaque(Word32()).write(x) == Sized(x)
  {
    assert Zeros(Pad(|x|)) == seq((4 - |x| % 4) % 4, _ => 0);
  }

  lemma FlavorWritten(w: Codec<u32>, f: AuthFlavor)
    ensures Flavor(w).write(f) == w.write(FlavorWord(f))
  {
    assert FlavorCode(f) == FlavorWord(f);
  }

  lemma StatWritten(w: Codec<u32>, s: AuthStat)
    ensures Stat(w).write(s) == w.write(StatWord(s))
  {
    assert StatCode(s) == StatWord(s);
  }

  lemma AuthWritten(a: OpaqueAuth)
    requires Short(a)
    ensures Auth(Word32()).write(a) == AuthBytes(a)
  {
    var w := Word32();
    OpaqueSized(a.body);
    FlavorWritten(w, a.flavor);
    assert Auth(w).write(a) == Pair(Flavor(w), Opaque(w)).write((a.flavor, a.body));
  }

  lemma InfoWritten(i: MismatchInfo)
    ensures Info(Word32()).write(i) == W(i.low) + W(i.high)
  {
    assert Info(Word32()).write(i) == Pair(Word32(), Word32()).write((i.low, i.high));
  }

  lemma CallWritten(w: Codec<u32>, c: CallBody)
    ensures CallCodec(w).write(c) ==
              ((w.write(c.rpcvers) + w.write(c.prog)) + (w.write(c.vers) + w.write(c.proc)))
              + (Auth(w).write(c.cred) + Auth(w).write(c.verf))
  {
    var words, auths := Pair(Pair(w, w), Pair(w, w)), Pair(Auth(w), Auth(w));
    assert CallCodec(w).write(c) == Pair(words, auths).write(CallFields(c));
    assert words.write(((c.rpcvers, c.prog), (c.vers, c.proc)))
        == (w.write(c.rpcvers) + w.write(c.prog)) + (w.write(c.vers) + w.write(c.proc));
    assert auths.write((c.cred, c.verf)) == Auth(w).write(c.cred) + Auth(w).write(c.verf);
  }

  lemma AcceptWritten(a: AcceptBody)
    ensures AcceptCodec(Word32(), Info(Word32())).write(a) == AcceptBytes(a)
  {
    if a.ProgMismatch? {
      InfoWritten(a.info);
    } else {
      assert W(AcceptCode(a)) + [] == W(AcceptCode(a));
    }
  }

  lemma AcceptedWritten(a: AcceptedReply)
    requires Short(a.verf)
    ensures AcceptedCodec(Word32()).write(a) == AuthBytes(a.verf) + AcceptBytes(a.data)
  {
    var auth, accept := Auth(Word32()), AcceptCodec(Word32(), Info(Word32()));
    AuthWritten(a.verf);
    AcceptWritten(a.data);
    assert AcceptedCodec(Word32()).write(a) == Pair(auth, accept).write((a.verf, a.data));
  }

  lemma DeniedWritten(d: RejectedReply)
    ensures DeniedCodec(Word32()).write(d) == DeniedBytes(d)
  {
    var w := Word32();
    var both := Union(w, Info(w), Stat(w), Left(NO_INFO));
    assert DeniedCodec(w).write(d) == both.write(DeniedArm(d));
    match d
    case RpcMismatch(i) =>
      InfoWritten(i);
      assert both.write(Left(i)) == w.write(0) + Info(w).write(i);
    case AuthError(s) =>
      assert both.write(Right(s)) == w.write(1) + Stat(w).write(s);
      StatWritten(w, s);
  }

  lemma ReplyWritten(r: ReplyBody)
    requires ShortReply(r)
    ensures ReplyCodec(Word32()).write(r) ==
              match r
              case MsgAccepted(a) => W(0) + (AuthBytes(a.verf) + AcceptBytes(a.data))
              case MsgDenied(d) => W(1) + DeniedBytes(d)
  {
    var w := Word32();
    var both := Union(w, AcceptedCodec(w), DeniedCodec(w), Left(NO_REPLY));
    assert ReplyCodec(w).write(r) == both.write(ReplyArm(r));
    match r
    case MsgAccepted(a) =>
      AcceptedWritten(a);
      assert both.write(Left(a)) == w.write(0) + AcceptedCodec(w).write(a);
    case MsgDenied(d) =>
      DeniedWritten(d);
      assert both.write(Right(d)) == w.write(1) + DeniedCodec(w).write(d);
  }

  lemma BodyWritten(w: Codec<u32>, call: Codec<CallBody>, reply: Codec<ReplyBody>, m: RpcMsg)
    ensures MessageOver(w, call, reply).write(m) ==
              w.write(m.xid) + match m.body
                               case Call(c) => w.write(0) + call.write(c)
                               case Reply(r) => w.write(1) + reply.write(r)
  {
    var body := Union(w, call, reply, Left(NO_CALL));
    assert MessageOver(w, call, reply).write(m) == Pair(w, body).write(MsgFields(m));
  }

  lemma Flat8(a: Bytes, b: Bytes, c: Bytes, d: Bytes, e: Bytes, f: Bytes, g: Bytes, h: Bytes)
    ensures a + (b + (((c + d) + (e + f)) + (g + h))) == a + b + c + d + e + f + g + h
  {
    assert ((c + d) + (e + f)) + (g + h) == c + d + e + f + g + h;
    assert a + (b + (c + d + e + f + g + h)) == a + b + (c + d + e + f + g + h);
  }

  lemma Flat5(a: Bytes, b: Bytes, c: Bytes, d: Bytes, e: Bytes)
    ensures a + (b + (c + (d + e))) == a + b + c + d + e
    ensures a + (b + (c + d)) == a + b + c + d
  {
  }

  /** A message is exactly its words, in this order. */
  lemma MessageWritten(m: RpcMsg)
    requires Writable(m)
    ensures Message(Word32()).write(m) == MessageBytes(m)
  {
    var w := Word32();
    BodyWritten(w, CallCodec(w), ReplyCodec(w), m);
    match m.body
    case Call(c) =>
      CallWritten(w, c);
      AuthWritten(c.cred);
      AuthWritten(c.verf);
      Flat8(W(m.xid), W(0), W(c.rpcvers), W(c.prog), W(c.vers), W(c.proc), AuthBytes(c.cred), AuthBytes(c.verf));
    case Reply(r) =>
      ReplyWritten(r);
      match r
      case MsgAccepted(a) => Flat5(W(m.xid), W(1), W(0), AuthBytes(a.verf), AcceptBytes(a.data));
      case MsgDenied(d) => Flat5(W(m.xid), W(1), W(1), DeniedBytes(d), []);
  }

  // ---- The unix credential ----

  function ListBytes(xs: seq<u32>): Bytes {
    if |xs| == 0 then [] else W(xs[0]) + ListBytes(xs[1..])
  }

  lemma {:induction false} ListWritten(xs: seq<u32>)
    ensures WriteWords(Word32(), xs) == ListBytes(xs)
  {
    if |xs| > 0 {
      ListWritten(xs[1..]);
    }
  }

  /** Stamp, machine name, user, group and the counted further groups. */
  lemma UnixWritten(a: UnixAuth)
    requires |a.machine| < 0xFFFF_FFFF && |a.gids| < 0xFFFF_FFFF
    ensures UnixCodec(Word32()).write(a) ==
              (W(a.stamp) + Sized(a.machine)) + ((W(a.uid) + W(a.gid)) + (W(|a.gids|) + ListBytes(a.gids)))
  {
    var w := Word32();
    var name, ids := Pair(w, Opaque(w)), Pair(Pair(w, w), WordList(w));
    OpaqueSized(a.machine);
    ListWritten(a.gids);
    assert UnixCodec(w).write(a) == Pair(name, ids).write(UnixFields(a));
    assert name.write((a.stamp, a.machine)) == W(a.stamp) + Sized(a.machine);
    assert ids.write(((a.uid, a.gid), a.gids)) == (W(a.uid) + W(a.gid)) + (W(|a.gids|) + ListBytes(a.gids));
  }
}
