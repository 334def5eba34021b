/** Remote procedure call messages (RFC 5531) and their wire form. */
module Rpc {
  import opened Core
  import opened Canonical
  import opened Xdr

  datatype AuthFlavor = AuthNull | AuthUnix | AuthShort | AuthDes

  datatype OpaqueAuth = OpaqueAuth(flavor: AuthFlavor, body: Bytes)

  /** The credential inside an AUTH_UNIX body. */
  datatype UnixAuth = UnixAuth(stamp: u32, machine: Bytes, uid: u32, gid: u32, gids: seq<u32>)

  datatype CallBody = CallBody(rpcvers: u32, prog: u32, vers: u32, proc: u32, cred: OpaqueAuth, verf: OpaqueAuth)

  datatype MismatchInfo = MismatchInfo(low: u32, high: u32)

  datatype AcceptBody = Success | ProgUnavail | ProgMismatch(info: MismatchInfo) | ProcUnavail | GarbageArgs

  datatype AcceptedReply = AcceptedReply(verf: OpaqueAuth, data: AcceptBody)

  datatype AuthStat = BadCred | RejectedCred | BadVerf | RejectedVerf | TooWeak

  datatype RejectedReply = RpcMismatch(info: MismatchInfo) | AuthError(stat: AuthStat)

  datatype ReplyBody = MsgAccepted(accepted: AcceptedReply) | MsgDenied(denied: RejectedReply)

  datatype RpcBody = Call(call: CallBody) | Reply(reply: ReplyBody)

  datatype RpcMsg = RpcMsg(xid: u32, body: RpcBody)

  const NO_AUTH := OpaqueAuth(AuthNull, [])
  const NO_CALL := CallBody(0, 0, 0, 0, NO_AUTH, NO_AUTH)
  const NO_INFO := MismatchInfo(0, 0)

  /** What the writers can put down: opaque bodies shorter than the largest length word. */
  predicate Short(a: OpaqueAuth) {
    |a.body| < 0xFFFF_FFFF
  }

  predicate ShortCall(c: CallBody) {
    Short(c.cred) && Short(c.verf)
  }

  predicate ShortReply(r: ReplyBody) {
    r.MsgAccepted? ==> Short(r.accepted.verf)
  }

  predicate Writable(m: RpcMsg) {
    match m.body case Call(c) => ShortCall(c) case Reply(r) => ShortReply(r)
  }

  // ---- Enumerations ----

  function FlavorCode(f: AuthFlavor): u32 {
    match f case AuthNull => 0 case AuthUnix => 1 case AuthShort => 2 case AuthDes => 3
  }

  function FlavorOf(n: u32): Option<AuthFlavor> {
    if n == 0 then Some(AuthNull) else if n == 1 then Some(AuthUnix)
    else if n == 2 then Some(AuthShort) else if n == 3 then Some(AuthDes) else None
  }

  function StatCode(s: AuthStat): u32 {
    match s case BadCred => 1 case RejectedCred => 2 case BadVerf => 3 case RejectedVerf => 4 case TooWeak => 5
  }

  function StatOf(n: u32): Option<AuthStat> {
    if n == 1 then Some(BadCred) else if n == 2 then Some(RejectedCred)
    else if n == 3 then Some(BadVerf) else if n == 4 then Some(RejectedVerf)
    else if n == 5 then Some(TooWeak) else None
  }

  function Flavor(w: Codec<u32>): Codec<AuthFlavor> {
    Narrow(w, (f: AuthFlavor) => true, FlavorCode, FlavorOf)
  }

  function Stat(w: Codec<u32>): Codec<AuthStat> {
    Narrow(w, (s: AuthStat) => true, StatCode, StatOf)
  }

  lemma FlavorWired(w: Codec<u32>)
    requires WordCodec(w)
    ensures Wired(Flavor(w))
  {
    NarrowWired(w, (f: AuthFlavor) => true, FlavorCode, FlavorOf);
  }

  lemma StatWired(w: Codec<u32>)
    requires WordCodec(w)
    ensures Wired(Stat(w))
  {
    NarrowWired(w, (s: AuthStat) => true, StatCode, StatOf);
  }

  // ---- Structures ----

  function Auth(w: Codec<u32>): Codec<OpaqueAuth> {
    Narrow(Pair(Flavor(w), Opaque(w)), Short,
           (a: OpaqueAuth) => (a.flavor, a.body),
           (p: (AuthFlavor, Bytes)) => Some(OpaqueAuth(p.0, p.1)))
  }

  lemma AuthWired(w: Codec<u32>)
    requires WordCodec(w)
    ensures Wired(Auth(w))
  {
    FlavorWired(w);
    OpaqueWired(w);
    PairWired(Flavor(w), Opaque(w));
    NarrowWired(Pair(Flavor(w), Opaque(w)), Short,
                (a: OpaqueAuth) => (a.flavor, a.body),
                (p: (AuthFlavor, Bytes)) => Some(OpaqueAuth(p.0, p.1)));
  }

  function Info(w: Codec<u32>): Codec<MismatchInfo> {
    Narrow(Pair(w, w), (i: MismatchInfo) => true,
           (i: MismatchInfo) => (i.low, i.high),
           (p: (u32, u32)) => Some(MismatchInfo(p.0, p.1)))
  }

  lemma InfoWired(w: Codec<u32>)
    requires WordCodec(w)
    ensures Wired(Info(w))
  {
    PairWired(w, w);
    NarrowWired(Pair(w, w), (i: MismatchInfo) => true,
                (i: MismatchInfo) => (i.low, i.high),
                (p: (u32, u32)) => Some(MismatchInfo(p.0, p.1)));
  }

  type CallRow = (((u32, u32), (u32, u32)), (OpaqueAuth, OpaqueAuth))

  function CallFields(c: CallBody): CallRow {
    (((c.rpcvers, c.prog), (c.vers, c.proc)), (c.cred, c.verf))
  }

  function CallOf(r: CallRow): Option<CallBody> {
    Some(CallBody(r.0.0.0, r.0.0.1, r.0.1.0, r.0.1.1, r.1.0, r.1.1))
  }

  function CallCodec(w: Codec<u32>): Codec<CallBody> {
    Narrow(Pair(Pair(Pair(w, w), Pair(w, w)), Pair(Auth(w), Auth(w))), ShortCall, CallFields, CallOf)
  }

  lemma CallWired(w: Codec<u32>)
    requires WordCodec(w)
    ensures Wired(CallCodec(w))
  {
    AuthWired(w);
    PairWired(w, w);
    PairWired(Pair(w, w), Pair(w, w));
    PairWired(Auth(w), Auth(w));
    PairWired(Pair(Pair(w, w), Pair(w, w)), Pair(Auth(w), Auth(w)));
    NarrowWired(Pair(Pair(Pair(w, w), Pair(w, w)), Pair(Auth(w), Auth(w))), ShortCall, CallFields, CallOf);
  }

  type UnixRow = ((u32, Bytes), ((u32, u32), seq<u32>))

  function UnixFields(a: UnixAuth): UnixRow {
    ((a.stamp, a.machine), ((a.uid, a.gid), a.gids))
  }

  function UnixOf(r: UnixRow): Option<UnixAuth> {
    Some(UnixAuth(r.0.0, r.0.1, r.1.0.0, r.1.0.1, r.1.1))
  }

  predicate ShortUnix(a: UnixAuth) {
    |a.machine| < 0xFFFF_FFFF && |a.gids| < 0xFFFF_FFFF
  }

  function UnixCodec(w: Codec<u32>): Codec<UnixAuth> {
    Narrow(Pair(Pair(w, Opaque(w)), Pair(Pair(w, w), WordList(w))), ShortUnix, UnixFields, UnixOf)
  }

  lemma UnixWired(w: Codec<u32>)
    requires WordCodec(w)
    ensures Wired(UnixCodec(w))
  {
    OpaqueWired(w);
    WordListWired(w);
    PairWired(w, Opaque(w));
    PairWired(w, w);
    PairWired(Pair(w, w), WordList(w));
    PairWired(Pair(w, Opaque(w)), Pair(Pair(w, w), WordList(w)));
    NarrowWired(Pair(Pair(w, Opaque(w)), Pair(Pair(w, w), WordList(w))), ShortUnix, UnixFields, UnixOf);
  }

  // ---- Unions ----

  function AcceptCode(a: AcceptBody): u32 {
    match a
    case Success => 0
    case ProgUnavail => 1
    case ProgMismatch(_) => 2
    case ProcUnavail => 3
    case GarbageArgs => 4
  }

  /** Any word past the known ones reads as garbage arguments. */
  function AcceptCodec(w: Codec<u32>, info: Codec<MismatchInfo>): Codec<AcceptBody> {
    Codec((a: AcceptBody) => a.ProgMismatch? ==> info.ok(a.info),
          (a: AcceptBody) => w.write(AcceptCode(a)) + if a.ProgMismatch? then info.write(a.info) else [],
          (b: Bytes) =>
            match w.read(b)
            case Bad => Bad
            case Got(c, rest) =>
              if c == 0 then Got(Success, rest)
              else if c == 1 then Got(ProgUnavail, rest)
              else if c == 2 then
                match info.read(rest)
                case Bad => Bad
                case Got(i, rest) => Got(ProgMismatch(i), rest)
              else if c == 3 then Got(ProcUnavail, rest)
              else Got(GarbageArgs, rest))
  }

  lemma AcceptWired(w: Codec<u32>, info: Codec<MismatchInfo>)
    requires WordCodec(w) && Wired(info)
    ensures Wired(AcceptCodec(w, info))
  {
    var c := AcceptCodec(w, info);
    forall a, tail | c.ok(a) ensures Takes(c, a, tail) && Quads(c.write(a)) {
      if a.ProgMismatch? {
        assert c.write(a) + tail == w.write(2) + (info.write(a.info) + tail);
        assert Takes(w, 2, info.write(a.info) + tail) && Takes(info, a.info, tail);
        QuadsJoin(w.write(2), info.write(a.info));
      } else {
        assert c.write(a) == w.write(AcceptCode(a));
        assert Takes(w, AcceptCode(a), tail);
      }
    }
    forall a | c.ok(a) ensures Quads(c.write(a)) {
      assert Takes(c, a, []);
    }
  }

  function AcceptedCodec(w: Codec<u32>): Codec<AcceptedReply> {
    Narrow(Pair(Auth(w), AcceptCodec(w, Info(w))),
           (a: AcceptedReply) => Short(a.verf),
           (a: AcceptedReply) => (a.verf, a.data),
           (p: (OpaqueAuth, AcceptBody)) => Some(AcceptedReply(p.0, p.1)))
  }

  lemma AcceptedWired(w: Codec<u32>)
    requires WordCodec(w)
    ensures Wired(AcceptedCodec(w))
  {
    AuthWired(w);
    InfoWired(w);
    AcceptWired(w, Info(w));
    PairWired(Auth(w), AcceptCodec(w, Info(w)));
    NarrowWired(Pair(Auth(w), AcceptCodec(w, Info(w))),
                (a: AcceptedReply) => Short(a.verf),
                (a: AcceptedReply) => (a.verf, a.data),
                (p: (OpaqueAuth, AcceptBody)) => Some(AcceptedReply(p.0, p.1)));
  }

  function DeniedArm(r: RejectedReply): Either<MismatchInfo, AuthStat> {
    match r case RpcMismatch(i) => Left(i) case AuthError(s) => Right(s)
  }

  function DeniedOf(e: Either<MismatchInfo, AuthStat>): Option<RejectedReply> {
    match e case Left(i) => Some(RpcMismatch(i)) case Right(s) => Some(AuthError(s))
  }

  function DeniedCodec(w: Codec<u32>): Codec<RejectedReply> {
    Narrow(Union(w, Info(w), Stat(w), Left(NO_INFO)), (r: RejectedReply) => true, DeniedArm, DeniedOf)
  }

  lemma DeniedWired(w: Codec<u32>)
    requires WordCodec(w)
    ensures Wired(DeniedCodec(w))
  {
    InfoWired(w);
    StatWired(w);
    UnionWired(w, Info(w), Stat(w), Left(NO_INFO));
    NarrowWired(Union(w, Info(w), Stat(w), Left(NO_INFO)), (r: RejectedReply) => true, DeniedArm, DeniedOf);
  }

  function ReplyArm(r: ReplyBody): Either<AcceptedReply, RejectedReply> {
    match r case MsgAccepted(a) => Left(a) case MsgDenied(d) => Right(d)
  }

  function ReplyOf(e: Either<AcceptedReply, RejectedReply>): Option<ReplyBody> {
    match e case Left(a) => Some(MsgAccepted(a)) case Right(d) => Some(MsgDenied(d))
  }

  const NO_REPLY := AcceptedReply(NO_AUTH, Success)

  function ReplyCodec(w: Codec<u32>): Codec<ReplyBody> {
    Narrow(Union(w, AcceptedCodec(w), DeniedCodec(w), Left(NO_REPLY)), ShortReply, ReplyArm, ReplyOf)
  }

  lemma ReplyWired(w: Codec<u32>)
    requires WordCodec(w)
    ensures Wired(ReplyCodec(w))
  {
    AcceptedWired(w);
    DeniedWired(w);
    UnionWired(w, AcceptedCodec(w), DeniedCodec(w), Left(NO_REPLY));
    NarrowWired(Union(w, AcceptedCodec(w), DeniedCodec(w), Left(NO_REPLY)), ShortReply, ReplyArm, ReplyOf);
  }

  // ---- Messages ----

  type MsgRow = (u32, Either<CallBody, ReplyBody>)

  function MsgFields(m: RpcMsg): MsgRow {
    (m.xid, match m.body case Call(c) => Left(c) case Reply(r) => Right(r))
  }

  function MsgOf(r: MsgRow): Option<RpcMsg> {
    Some(RpcMsg(r.0, match r.1 case Left(c) => Call(c) case Right(r) => Reply(r)))
  }

  function MessageOver(w: Codec<u32>, call: Codec<CallBody>, reply: Codec<ReplyBody>): Codec<RpcMsg> {
    Narrow(Pair(w, Union(w, call, reply, Left(NO_CALL))), Writable, MsgFields, MsgOf)
  }

  function Message(w: Codec<u32>): Codec<RpcMsg> {
    MessageOver(w, CallCodec(w), ReplyCodec(w))
  }

  lemma MessageOverWired(w: Codec<u32>, call: Codec<CallBody>, reply: Codec<ReplyBody>)
    requires WordCodec(w) && Wired(call) && Wired(reply)
    requires forall c :: ShortCall(c) ==> call.ok(c)
    requires forall r :: ShortReply(r) ==> reply.ok(r)
    ensures Wired(MessageOver(w, call, reply))
  {
    UnionWired(w, call, reply, Left(NO_CALL));
    PairWired(w, Union(w, call, reply, Left(NO_CALL)));
    NarrowWired(Pair(w, Union(w, call, reply, Left(NO_CALL))), Writable, MsgFields, MsgOf);
  }

  lemma MessageWired(w: Codec<u32>)
    requires WordCodec(w)
    ensures Wired(Message(w))
  {
    CallWired(w);
    ReplyWired(w);
    MessageOverWired(w, CallCodec(w), ReplyCodec(w));
  }

  /** A message read back from its own bytes, whatever follows them, is that message, and what
      follows is left; and every message takes a multiple of four bytes. */
  lemma MessageRoundTrip(m: RpcMsg, tail: Bytes)
    requires Writable(m)
    ensures var c := Message(Word32()); c.read(c.write(m) + tail) == Got(m, tail) && |c.write(m)| % 4 == 0
  {
    Word32Wired();
    MessageWired(Word32());
    assert Takes(Message(Word32()), m, tail);
    assert Quads(Message(Word32()).write(m));
  }

  /** No message's bytes begin another's, so messages need no delimiter of their own. */
  lemma MessagesPrefixFree(m: RpcMsg, n: RpcMsg)
    requires Writable(m) && Writable(n) && Message(Word32()).write(m) <= Message(Word32()).write(n)
    ensures m == n
  {
    Word32Wired();
    MessageWired(Word32());
    PrefixFree(Message(Word32()), m, n);
  }

  /** The credential round trips too. */
  lemma UnixRoundTrip(a: UnixAuth, tail: Bytes)
    requires |a.machine| < 0xFFFF_FFFF && |a.gids| < 0xFFFF_FFFF
    ensures var c := UnixCodec(Word32()); c.read(c.write(a) + tail) == Got(a, tail) && |c.write(a)| % 4 == 0
  {
    Word32Wired();
    UnixWired(Word32());
    assert UnixCodec(Word32()).ok(a) by {
      assert ShortUnix(a);
    }
    WiredTakes(UnixCodec(Word32()), a, tail);
  }

  // ---- Which accepted bytes are a message's own ----

  function AuthGuard(w: Codec<u32>): Guard {
    Then(Flavor(w), Any(), PadGuard(w))
  }

  function CallGuard(w: Codec<u32>): Guard {
    Then(Pair(Pair(w, w), Pair(w, w)), Any(), Then(Auth(w), AuthGuard(w), AuthGuard(w)))
  }

  /** The accept word is one of the five known. */
  function AcceptGuard(w: Codec<u32>): Guard {
    b => match w.read(b) case Bad => false case Got(n, _) => n <= 4
  }

  function AcceptedGuard(w: Codec<u32>): Guard {
    Then(Auth(w), AuthGuard(w), AcceptGuard(w))
  }

  function ReplyGuard(w: Codec<u32>): Guard {
    Arms(w, AcceptedGuard(w), Arms(w, Any(), Any()))
  }

  /** The reader's own checks, made strict: the body, reply and reject words are 0 or 1, the
      accept word at most 4, and every opaque body has a writable length and zero padding. */
  function Strict(w: Codec<u32>): Guard {
    Then(w, Any(), Arms(w, CallGuard(w), ReplyGuard(w)))
  }

  lemma FlavorGuards(w: Codec<u32>)
    requires WordCodec(w) && Exact(w)
    ensures Guards(Any(), Flavor(w))
  {
    AnyGuards(w);
    NarrowGuards(w, (f: AuthFlavor) => true, FlavorCode, FlavorOf, Any());
  }

  lemma StatGuards(w: Codec<u32>)
    requires WordCodec(w) && Exact(w)
    ensures Guards(Any(), Stat(w))
  {
    AnyGuards(w);
    NarrowGuards(w, (s: AuthStat) => true, StatCode, StatOf, Any());
  }

  lemma AuthGuards(w: Codec<u32>)
    requires WordCodec(w) && Exact(w)
    ensures Guards(AuthGuard(w), Auth(w))
  {
    FlavorWired(w);
    FlavorGuards(w);
    PadGuards(w);
    ThenGuards(Flavor(w), Opaque(w), Any(), PadGuard(w));
    NarrowGuards(Pair(Flavor(w), Opaque(w)), Short,
                 (a: OpaqueAuth) => (a.flavor, a.body),
                 (p: (AuthFlavor, Bytes)) => Some(OpaqueAuth(p.0, p.1)), AuthGuard(w));
  }

  lemma InfoGuards(w: Codec<u32>)
    requires WordCodec(w) && Exact(w)
    ensures Guards(Any(), Info(w))
  {
    PairExact(w, w);
    AnyGuards(Pair(w, w));
    NarrowGuards(Pair(w, w), (i: MismatchInfo) => true,
                 (i: MismatchInfo) => (i.low, i.high),
                 (p: (u32, u32)) => Some(MismatchInfo(p.0, p.1)), Any());
  }

  lemma CallGuards(w: Codec<u32>)
    requires WordCodec(w) && Exact(w)
    ensures Guards(CallGuard(w), CallCodec(w))
  {
    var words := Pair(Pair(w, w), Pair(w, w));
    PairExact(w, w);
    PairExact(Pair(w, w), Pair(w, w));
    AnyGuards(words);
    PairWired(w, w);
    PairWired(Pair(w, w), Pair(w, w));
    AuthWired(w);
    AuthGuards(w);
    ThenGuards(Auth(w), Auth(w), AuthGuard(w), AuthGuard(w));
    ThenGuards(words, Pair(Auth(w), Auth(w)), Any(), Then(Auth(w), AuthGuard(w), AuthGuard(w)));
    NarrowGuards(Pair(words, Pair(Auth(w), Auth(w))), ShortCall, CallFields, CallOf, CallGuard(w));
  }

  lemma AcceptGuards(w: Codec<u32>, info: Codec<MismatchInfo>)
    requires WordCodec(w) && Exact(w) && Guards(Any(), info)
    ensures Guards(AcceptGuard(w), AcceptCodec(w, info))
  {
    var c := AcceptCodec(w, info);
    forall b ensures Tells(c, AcceptGuard(w), b) {
      match w.read(b)
      case Bad =>
      case Got(n, rest) =>
        assert b == w.write(n) + rest && Tells(info, Any(), rest);
        match c.read(b)
        case Bad =>
        case Got(a, tail) =>
          var more := if a.ProgMismatch? then info.write(a.info) else [];
          assert c.write(a) + tail == w.write(AcceptCode(a)) + (more + tail);
          assert Takes(w, AcceptCode(a), more + tail);
          assert [] + tail == tail;
    }
  }

  lemma AcceptedGuards(w: Codec<u32>)
    requires WordCodec(w) && Exact(w)
    ensures Guards(AcceptedGuard(w), AcceptedCodec(w))
  {
    AuthWired(w);
    AuthGuards(w);
    InfoGuards(w);
    AcceptGuards(w, Info(w));
    ThenGuards(Auth(w), AcceptCodec(w, Info(w)), AuthGuard(w), AcceptGuard(w));
    NarrowGuards(Pair(Auth(w), AcceptCodec(w, Info(w))),
                 (a: AcceptedReply) => Short(a.verf),
                 (a: AcceptedReply) => (a.verf, a.data),
                 (p: (OpaqueAuth, AcceptBody)) => Some(AcceptedReply(p.0, p.1)), AcceptedGuard(w));
  }

  lemma DeniedGuards(w: Codec<u32>)
    requires WordCodec(w) && Exact(w)
    ensures Guards(Arms(w, Any(), Any()), DeniedCodec(w))
  {
    InfoGuards(w);
    StatGuards(w);
    ArmsGuard(w, Info(w), Stat(w), Left(NO_INFO), Any(), Any());
    NarrowGuards(Union(w, Info(w), Stat(w), Left(NO_INFO)), (r: RejectedReply) => true, DeniedArm, DeniedOf,
                 Arms(w, Any(), Any()));
  }

  lemma ReplyGuards(w: Codec<u32>)
    requires WordCodec(w) && Exact(w)
    ensures Guards(ReplyGuard(w), ReplyCodec(w))
  {
    AcceptedGuards(w);
    DeniedGuards(w);
    ArmsGuard(w, AcceptedCodec(w), DeniedCodec(w), Left(NO_REPLY), AcceptedGuard(w), Arms(w, Any(), Any()));
    NarrowGuards(Union(w, AcceptedCodec(w), DeniedCodec(w), Left(NO_REPLY)), ShortReply, ReplyArm, ReplyOf,
                 ReplyGuard(w));
  }

  lemma MessageOverGuards(w: Codec<u32>, call: Codec<CallBody>, reply: Codec<ReplyBody>, calls: Guard, replies: Guard)
    requires WordCodec(w) && Exact(w) && Guards(calls, call) && Guards(replies, reply)
    requires forall c :: ShortCall(c) <==> call.ok(c)
    requires forall r :: ShortReply(r) <==> reply.ok(r)
    ensures Guards(Then(w, Any(), Arms(w, calls, replies)), MessageOver(w, call, reply))
  {
    var body := Union(w, call, reply, Left(NO_CALL));
    AnyGuards(w);
    ArmsGuard(w, call, reply, Left(NO_CALL), calls, replies);
    ThenGuards(w, body, Any(), Arms(w, calls, replies));
    NarrowGuards(Pair(w, body), Writable, MsgFields, MsgOf, Then(w, Any(), Arms(w, calls, replies)));
  }

  /** Reading is lenient, and exactly this far: of the bytes the reader accepts, those that are
      what the message is written as are the ones that pass `Strict`. */
  lemma StrictExactly(b: Bytes, m: RpcMsg, rest: Bytes)
    requires Message(Word32()).read(b) == Got(m, rest)
    ensures Strict(Word32())(b) <==> Writable(m) && b == Message(Word32()).write(m) + rest
  {
    var w := Word32();
    Word32Wired();
    Word32Exact();
    CallGuards(w);
    ReplyGuards(w);
    MessageOverGuards(w, CallCodec(w), ReplyCodec(w), CallGuard(w), ReplyGuard(w));
    assert Tells(Message(w), Strict(w), b);
  }

  /** The other direction fails: a body type that is neither call nor reply is not refused but
      read as an empty call, so these bytes are not what any message is written as. */
  lemma UnknownBodyReadsAsCall(xid: u32, kind: u32, tail: Bytes)
    requires kind > 1
    ensures var w := Word32();
            Message(w).read(w.write(xid) + (w.write(kind) + tail)) == Got(RpcMsg(xid, Call(NO_CALL)), tail)
  {
    Word32Wired();
    UnknownArm(Word32(), CallCodec(Word32()), ReplyCodec(Word32()), xid, kind, tail);
  }

  lemma UnknownArm(w: Codec<u32>, call: Codec<CallBody>, reply: Codec<ReplyBody>, xid: u32, kind: u32, tail: Bytes)
    requires WordCodec(w) && kind > 1
    ensures MessageOver(w, call, reply).read(w.write(xid) + (w.write(kind) + tail))
            == Got(RpcMsg(xid, Call(NO_CALL)), tail)
  {
    assert Takes(w, xid, w.write(kind) + tail) && Takes(w, kind, tail);
    var body := Union(w, call, reply, Left(NO_CALL));
    assert body.read(w.write(kind) + tail) == Got(Left(NO_CALL), tail);
    assert Pair(w, body).read(w.write(xid) + (w.write(kind) + tail)) == Got((xid, Left(NO_CALL)), tail);
  }
}
