/** The attestation protocol: many action caches, honest and Byzantine signers, an ideal
    signing log, and every replay and reordering of what was signed. */
module ActionCache {
  import opened Core
  import opened Digests
  import opened Blobs
  import opened Attestations

  type Signature = Bytes

  /** A signature some signer really made over a message. */
  datatype Signed = Signed(signer: SignerId, message: Bytes, signature: Signature)

  datatype Node = Node(entries: map<Digest, set<Attestation>>, cas: map<Digest, Bytes>)

  /** `truth` is the one result of each (deterministic) action; signers outside
      `byzantine` sign nothing else. */
  datatype Config = Config(h: Hash, k: nat, byzantine: set<SignerId>, truth: Digest -> Digest)

  datatype State = State(log: set<Signed>, nodes: seq<Node>)

  datatype Action =
    | HonestSign(signer: SignerId, action: Digest, signature: Signature)
    | ByzantineSign(signer: SignerId, message: Bytes, signature: Signature)
    | Attest(n: nat, action: Digest, att: Attestation, signature: Signature)
    | Gossip(n: nat, from: nat, action: Digest)
    | Put(n: nat, digest: Digest, body: Bytes)
    | Evict(n: nat, digest: Digest)
    | Restart(n: nat)

  predicate Enabled(c: Config, s: State, a: Action) {
    match a
    case HonestSign(signer, _, _) => signer !in c.byzantine
    case ByzantineSign(signer, _, _) => signer in c.byzantine
    case Attest(n, _, _, _) => n < |s.nodes|
    case Gossip(n, from, _) => n < |s.nodes| && from < |s.nodes|
    case Put(n, _, _) => n < |s.nodes|
    case Evict(n, _) => n < |s.nodes|
    case Restart(n) => n < |s.nodes|
  }

  function Entry(node: Node, action: Digest): set<Attestation> {
    if action in node.entries then node.entries[action] else {}
  }

  function Grow(node: Node, action: Digest, atts: set<Attestation>): Node {
    node.(entries := node.entries[action := Entry(node, action) + atts])
  }

  /** The verifier: this signer made this signature over this very message. */
  predicate Authentic(s: State, signer: SignerId, message: Bytes, signature: Signature) {
    Signed(signer, message, signature) in s.log
  }

  /** `attest_action_result`: verify against the action it is filed under, then insert. */
  function AttestAt(s: State, node: Node, action: Digest, att: Attestation, signature: Signature): Node {
    if Authentic(s, att.signer, Statement(action, att.result), signature)
    then Grow(node, action, {att})
    else node
  }

  /** A put stores only bytes that hash to the digest, and keeps what it holds. */
  function PutAt(c: Config, node: Node, d: Digest, body: Bytes): Node {
    if Verifies(c.h, d, body) && d !in node.cas then node.(cas := node.cas[d := body]) else node
  }

  function Next(c: Config, s: State, a: Action): State
    requires Enabled(c, s, a)
  {
    match a
    case HonestSign(signer, action, sig) =>
      s.(log := s.log + {Signed(signer, Statement(action, c.truth(action)), sig)})
    case ByzantineSign(signer, message, sig) => s.(log := s.log + {Signed(signer, message, sig)})
    case Attest(n, action, att, sig) =>
      s.(nodes := s.nodes[n := AttestAt(s, s.nodes[n], action, att, sig)])
    case Gossip(n, from, action) =>
      s.(nodes := s.nodes[n := Grow(s.nodes[n], action, Entry(s.nodes[from], action))])
    case Put(n, d, body) => s.(nodes := s.nodes[n := PutAt(c, s.nodes[n], d, body)])
    case Evict(n, d) => s.(nodes := s.nodes[n := s.nodes[n].(cas := s.nodes[n].cas - {d})])
    case Restart(n) => s.(nodes := s.nodes[n := s.nodes[n].(entries := map[])])
  }

  // ---- Lookups ----

  datatype Lookup =
    | Miss
    | Hit(value: ActionResult)
    | Conflict
    | NotHeld(digest: Digest)
    | Malformed

  /** `get_action_result`: resolve, then materialise the confirmed body. */
  function Get(k: nat, node: Node, action: Digest): Lookup {
    if action !in node.entries then Miss
    else
      match Resolve(node.entries[action], k)
      case Unconfirmed => Miss
      case Conflicting(_) => Conflict
      case Confirmed(d) =>
        if d !in node.cas then NotHeld(d)
        else
          match DecodeResult(node.cas[d])
          case Some(v) => Hit(v)
          case None => Malformed
  }

  /** `d` has k signers for the action, and no other result does. */
  ghost predicate Only(node: Node, action: Digest, d: Digest, k: nat) {
    IsConfirmed(Entry(node, action), d, k) && forall q :: IsConfirmed(Entry(node, action), q, k) ==> q == d
  }

  predicate Encodes(body: Bytes, v: ActionResult) {
    |v.outputs| <= U64_MAX && body == EncodeResult(v)
  }

  lemma ResolvesEntry(k: nat, node: Node, action: Digest)
    requires k >= 1
    ensures action !in node.entries ==> forall q :: !IsConfirmed(Entry(node, action), q, k)
  {
    if action !in node.entries {
      assert forall q :: SignersFor({}, q) == {};
    }
  }

  lemma BodyDecodes(body: Bytes)
    ensures forall v :: DecodeResult(body) == Some(v) <==> Encodes(body, v)
    ensures DecodeResult(body).None? <==> forall v :: !Encodes(body, v)
  {
    forall v ensures DecodeResult(body) == Some(v) <==> Encodes(body, v) {
      ResultRoundTrip(body, v);
    }
    if DecodeResult(body).Some? {
      assert Encodes(body, DecodeResult(body).value);
    }
  }

  /** Several results with k signers are at least two different ones. */
  lemma ConflictMeansTwo(atts: set<Attestation>, k: nat)
    requires k >= 1
    ensures Resolve(atts, k).Conflicting? <==> exists p, q :: p != q && IsConfirmed(atts, p, k) && IsConfirmed(atts, q, k)
  {
    ResolveExact(atts, k);
    match Resolve(atts, k)
    case Unconfirmed =>
    case Confirmed(_) =>
    case Conflicting(rs) =>
      var p :| p in rs;
      assert rs != {p};
  }

  /** What a lookup that found one confirmed result makes of the body. */
  lemma AnswersFromBody(k: nat, node: Node, action: Digest, d: Digest)
    requires action in node.entries && Resolve(node.entries[action], k) == Confirmed(d)
    ensures var r := Get(k, node, action);
            && !r.Miss? && !r.Conflict? && (r.NotHeld? ==> r.digest == d)
            && (r.NotHeld? <==> d !in node.cas)
            && (d in node.cas ==> forall v :: r == Hit(v) <==> Encodes(node.cas[d], v))
            && (r.Malformed? <==> d in node.cas && forall v :: !Encodes(node.cas[d], v))
  {
    if d in node.cas {
      BodyDecodes(node.cas[d]);
    }
  }

  /** What each answer of a lookup means, for every node and action. */
  lemma AnswersExactly(k: nat, node: Node, action: Digest)
    requires k >= 1
    ensures Get(k, node, action) == Miss <==> forall q :: !IsConfirmed(Entry(node, action), q, k)
    ensures Get(k, node, action) == Conflict <==>
              exists p, q :: p != q && IsConfirmed(Entry(node, action), p, k) && IsConfirmed(Entry(node, action), q, k)
    ensures forall d :: Get(k, node, action) == NotHeld(d) <==> Only(node, action, d, k) && d !in node.cas
    ensures forall v :: Get(k, node, action) == Hit(v) <==>
              exists d :: Only(node, action, d, k) && d in node.cas && Encodes(node.cas[d], v)
    ensures Get(k, node, action) == Malformed <==>
              exists d :: Only(node, action, d, k) && d in node.cas && forall v :: !Encodes(node.cas[d], v)
  {
    var atts := Entry(node, action);
    ResolvesEntry(k, node, action);
    ResolveExact(atts, k);
    ConflictMeansTwo(atts, k);
    forall d ensures Only(node, action, d, k) <==> Resolve(atts, k) == Confirmed(d) {
    }
    if action in node.entries && Resolve(atts, k).Confirmed? {
      AnswersFromBody(k, node, action, Resolve(atts, k).result);
    }
  }

  // ---- What every reachable state keeps ----

  /** Honest signers signed only true statements. */
  ghost predicate HonestLog(c: Config, s: State) {
    forall e | e in s.log && e.signer !in c.byzantine ::
      exists action :: e.message == Statement(action, c.truth(action))
  }

  ghost predicate Backed(s: State, action: Digest, att: Attestation) {
    exists sig :: Authentic(s, att.signer, Statement(action, att.result), sig)
  }

  /** Everything in a set was signed for the action it is filed under. */
  ghost predicate BackedEntries(s: State) {
    forall n, action, att | 0 <= n < |s.nodes| && att in Entry(s.nodes[n], action) :: Backed(s, action, att)
  }

  ghost predicate VerifiedCas(c: Config, s: State) {
    forall n, d | 0 <= n < |s.nodes| && d in s.nodes[n].cas :: Verifies(c.h, d, s.nodes[n].cas[d])
  }

  ghost predicate Inv(c: Config, s: State) {
    HonestLog(c, s) && BackedEntries(s) && VerifiedCas(c, s)
  }

  lemma BackedStep(c: Config, s: State, a: Action)
    requires Enabled(c, s, a) && BackedEntries(s)
    ensures BackedEntries(Next(c, s, a))
  {
    var s' := Next(c, s, a);
    forall n, action, att | 0 <= n < |s'.nodes| && att in Entry(s'.nodes[n], action) ensures Backed(s', action, att) {
      if att in Entry(s.nodes[n], action) {
        assert Backed(s, action, att);
        var sig :| Authentic(s, att.signer, Statement(action, att.result), sig);
        assert Authentic(s', att.signer, Statement(action, att.result), sig);
      } else if a.Attest? {
        assert Authentic(s', att.signer, Statement(action, att.result), a.signature);
      } else if a.Gossip? {
        assert Backed(s, action, att);
        var sig :| Authentic(s, att.signer, Statement(action, att.result), sig);
        assert Authentic(s', att.signer, Statement(action, att.result), sig);
      }
    }
  }

  lemma InvStep(c: Config, s: State, a: Action)
    requires Enabled(c, s, a) && Inv(c, s)
    ensures Inv(c, Next(c, s, a))
  {
    BackedStep(c, s, a);
  }

  ghost predicate Runs(c: Config, s: State, acts: seq<Action>)
    decreases |acts|
  {
    |acts| == 0 || (Enabled(c, s, acts[0]) && Runs(c, Next(c, s, acts[0]), acts[1..]))
  }

  ghost function After(c: Config, s: State, acts: seq<Action>): State
    requires Runs(c, s, acts)
    decreases |acts|
  {
    if |acts| == 0 then s else After(c, Next(c, s, acts[0]), acts[1..])
  }

  /** Any number of nodes, nothing signed, nothing attested, nothing stored. */
  ghost predicate Init(s: State) {
    && s.log == {}
    && forall n :: 0 <= n < |s.nodes| ==> s.nodes[n] == Node(map[], map[])
  }

  lemma {:induction false} InvHolds(c: Config, s: State, acts: seq<Action>)
    requires Runs(c, s, acts) && Inv(c, s)
    ensures Inv(c, After(c, s, acts))
    decreases |acts|
  {
    if |acts| > 0 {
      InvStep(c, s, acts[0]);
      InvHolds(c, Next(c, s, acts[0]), acts[1..]);
    }
  }

  // ---- Safety ----

  /** Only Byzantine signers stand behind a result that is not the true one, because a
      signature is bound to its action and its result. */
  lemma FalseBackersAreByzantine(c: Config, s: State, n: nat, action: Digest, r: Digest)
    requires Inv(c, s) && n < |s.nodes| && r != c.truth(action)
    ensures SignersFor(Entry(s.nodes[n], action), r) <= c.byzantine
  {
    var atts := Entry(s.nodes[n], action);
    forall signer | signer in SignersFor(atts, r) ensures signer in c.byzantine {
      assert Attestation(signer, r) in atts;
      assert Backed(s, action, Attestation(signer, r));
      var sig :| Authentic(s, signer, Statement(action, r), sig);
      if signer !in c.byzantine {
        var e := Signed(signer, Statement(action, r), sig);
        var other :| e.message == Statement(other, c.truth(other));
        StatementBinds(action, r, other, c.truth(other));
      }
    }
  }

  lemma OnlyTruthConfirmed(c: Config, s: State, n: nat, action: Digest)
    requires Inv(c, s) && n < |s.nodes| && |c.byzantine| < c.k
    ensures var r := Resolve(Entry(s.nodes[n], action), c.k);
            r == Unconfirmed || r == Confirmed(c.truth(action))
  {
    var atts := Entry(s.nodes[n], action);
    ResolveExact(atts, c.k);
    forall r | r != c.truth(action) ensures !IsConfirmed(atts, r, c.k) {
      FalseBackersAreByzantine(c, s, n, action, r);
      SubsetSize(SignersFor(atts, r), c.byzantine);
    }
  }

  /** A lookup answers only with the confirmed truth. */
  ghost predicate Truthful(c: Config, node: Node, action: Digest) {
    var got := Get(c.k, node, action);
    && !got.Conflict?
    && (got.NotHeld? ==> got.digest == c.truth(action))
    && (got.Hit? ==> Verifies(c.h, c.truth(action), EncodeResult(got.value)))
  }

  lemma TruthfulAt(c: Config, s: State, n: nat, action: Digest)
    requires Inv(c, s) && n < |s.nodes| && |c.byzantine| < c.k
    ensures Truthful(c, s.nodes[n], action)
    ensures Get(c.k, s.nodes[n], action).Hit? ==> HitBody(c, s.nodes[n], action)
  {
    OnlyTruthConfirmed(c, s, n, action);
    var got := Get(c.k, s.nodes[n], action);
    if got.Hit? {
      ResultRoundTrip(s.nodes[n].cas[c.truth(action)], got.value);
    }
  }

  /** What a hit returned was decoded from the body held under the true result. */
  ghost predicate HitBody(c: Config, node: Node, action: Digest) {
    var got := Get(c.k, node, action);
    && got.Hit? && c.truth(action) in node.cas
    && node.cas[c.truth(action)] == EncodeResult(got.value)
    && DecodeResult(node.cas[c.truth(action)]) == Some(got.value)
  }

  /** With fewer than k Byzantine signers, no run makes any node report a conflict or return
      a value other than one whose canonical bytes hash to the action's true result. */
  lemma NoForgery(c: Config, s0: State, acts: seq<Action>, n: nat, action: Digest)
    requires Init(s0) && Runs(c, s0, acts) && |c.byzantine| < c.k
    requires n < |After(c, s0, acts).nodes|
    ensures Truthful(c, After(c, s0, acts).nodes[n], action)
  {
    InvHolds(c, s0, acts);
    TruthfulAt(c, After(c, s0, acts), n, action);
  }

  /** And it does answer: in every reachable state, once k signers back the true result and
      its body is held, a lookup returns that very value. */
  lemma QuorumHits(c: Config, s: State, n: nat, action: Digest, v: ActionResult)
    requires Inv(c, s) && n < |s.nodes| && |c.byzantine| < c.k && |v.outputs| <= U64_MAX
    requires IsConfirmed(Entry(s.nodes[n], action), c.truth(action), c.k)
    requires c.truth(action) in s.nodes[n].cas && s.nodes[n].cas[c.truth(action)] == EncodeResult(v)
    ensures Get(c.k, s.nodes[n], action) == Hit(v)
  {
    QuorumResolves(c, s, n, action);
    Materialised(c.k, s.nodes[n], action, c.truth(action), v);
  }

  lemma QuorumResolves(c: Config, s: State, n: nat, action: Digest)
    requires Inv(c, s) && n < |s.nodes| && |c.byzantine| < c.k
    requires IsConfirmed(Entry(s.nodes[n], action), c.truth(action), c.k)
    ensures action in s.nodes[n].entries
    ensures Resolve(s.nodes[n].entries[action], c.k) == Confirmed(c.truth(action))
  {
    OnlyTruthConfirmed(c, s, n, action);
    ResolveExact(Entry(s.nodes[n], action), c.k);
    ConfirmedMember(Entry(s.nodes[n], action), c.truth(action), c.k);
  }

  /** A confirmed body that is held is returned exactly as the value it encodes. */
  lemma Materialised(k: nat, node: Node, action: Digest, d: Digest, v: ActionResult)
    requires action in node.entries && Resolve(node.entries[action], k) == Confirmed(d) && d in node.cas
    ensures Get(k, node, action) == Hit(v) <==> |v.outputs| <= U64_MAX && node.cas[d] == EncodeResult(v)
  {
    ResultRoundTrip(node.cas[d], v);
  }

  /** No two bodies held at one point of a run or the other collide. */
  ghost predicate CollisionFree(c: Config, s: State, t: State) {
    forall m, n, d, e, algo |
      && 0 <= m < |s.nodes| && 0 <= n < |t.nodes| && d in s.nodes[m].cas && e in t.nodes[n].cas
      && c.h(algo, s.nodes[m].cas[d]) == c.h(algo, t.nodes[n].cas[e]) ::
        s.nodes[m].cas[d] == t.nodes[n].cas[e]
  }

  /** No two lookups of one action ever return different results: not at two nodes, and not
      at two points of a run, however far apart. */
  lemma Agreement(c: Config, s0: State, acts: seq<Action>, more: seq<Action>, m: nat, n: nat, action: Digest)
    requires Init(s0) && Runs(c, s0, acts) && Runs(c, After(c, s0, acts), more) && |c.byzantine| < c.k
    requires m < |After(c, s0, acts).nodes| && n < |After(c, After(c, s0, acts), more).nodes|
    requires CollisionFree(c, After(c, s0, acts), After(c, After(c, s0, acts), more))
    ensures var s := After(c, s0, acts); var t := After(c, s, more);
            var x, y := Get(c.k, s.nodes[m], action), Get(c.k, t.nodes[n], action);
            x.Hit? && y.Hit? ==> x == y
  {
    InvHolds(c, s0, acts);
    InvHolds(c, After(c, s0, acts), more);
    AgreeAt(c, After(c, s0, acts), After(c, After(c, s0, acts), more), m, n, action);
  }

  lemma AgreeAt(c: Config, s: State, t: State, m: nat, n: nat, action: Digest)
    requires Inv(c, s) && Inv(c, t) && CollisionFree(c, s, t) && |c.byzantine| < c.k
    requires m < |s.nodes| && n < |t.nodes|
    ensures var x, y := Get(c.k, s.nodes[m], action), Get(c.k, t.nodes[n], action);
            x.Hit? && y.Hit? ==> x == y
  {
    TruthfulAt(c, s, m, action);
    TruthfulAt(c, t, n, action);
    var x, y, d := Get(c.k, s.nodes[m], action), Get(c.k, t.nodes[n], action), c.truth(action);
    if x.Hit? && y.Hit? {
      assert c.h(d.algo, s.nodes[m].cas[d]) == c.h(d.algo, t.nodes[n].cas[d]);
    }
  }

  // ---- The threshold is tight ----

  lemma {:induction false} RunSnoc(c: Config, s: State, acts: seq<Action>, a: Action)
    requires Runs(c, s, acts) && Enabled(c, After(c, s, acts), a)
    ensures Runs(c, s, acts + [a]) && After(c, s, acts + [a]) == Next(c, After(c, s, acts), a)
    decreases |acts|
  {
    if |acts| == 0 {
      assert (acts + [a])[1..] == [];
    } else {
      RunSnoc(c, Next(c, s, acts[0]), acts[1..], a);
      assert (acts + [a])[1..] == acts[1..] + [a];
    }
  }

  /** Some Byzantine signers all attest `r` for `action` at one node. */
  lemma {:induction false} Collude(c: Config, signers: set<SignerId>, action: Digest, r: Digest) returns (acts: seq<Action>)
    requires signers <= c.byzantine
    ensures var s0 := State({}, [Node(map[], map[])]);
            && Runs(c, s0, acts)
            && var s := After(c, s0, acts);
               && |s.nodes| == 1
               && Entry(s.nodes[0], action) == (set x | x in signers :: Attestation(x, r))
  {
    var s0 := State({}, [Node(map[], map[])]);
    acts := [];
    if signers != {} {
      var x :| x in signers;
      acts := Collude(c, signers - {x}, action, r);
      var sign := ByzantineSign(x, Statement(action, r), []);
      RunSnoc(c, s0, acts, sign);
      acts := acts + [sign];
      var file := Attest(0, action, Attestation(x, r), []);
      RunSnoc(c, s0, acts, file);
      acts := acts + [file];
    }
  }

  /** Exactly why the bound is k: any k Byzantine signers forge any result for any action. */
  lemma ForgeryAtThreshold(c: Config, action: Digest, r: Digest) returns (s0: State, acts: seq<Action>)
    requires c.k >= 1 && |c.byzantine| >= c.k
    ensures Init(s0) && Runs(c, s0, acts) && |After(c, s0, acts).nodes| == 1
    ensures Resolve(Entry(After(c, s0, acts).nodes[0], action), c.k) == Confirmed(r)
  {
    s0 := State({}, [Node(map[], map[])]);
    acts := Collude(c, c.byzantine, action, r);
    var atts := Entry(After(c, s0, acts).nodes[0], action);
    assert SignersFor(atts, r) == c.byzantine by {
      forall x | x in c.byzantine ensures x in SignersFor(atts, r) {
        assert Attestation(x, r) in atts;
      }
    }
    forall q | q != r ensures !IsConfirmed(atts, q, c.k) {
      assert SignersFor(atts, q) == {};
    }
    ResolveExact(atts, c.k);
  }

  // ---- The protocol does answer ----

  /** What a node collects only grows until it restarts. */
  lemma {:induction false} EntriesGrow(c: Config, s: State, acts: seq<Action>, n: nat, action: Digest)
    requires Runs(c, s, acts) && n < |s.nodes| && Restart(n) !in acts
    ensures |After(c, s, acts).nodes| == |s.nodes|
    ensures Entry(s.nodes[n], action) <= Entry(After(c, s, acts).nodes[n], action)
    decreases |acts|
  {
    if |acts| > 0 {
      var s' := Next(c, s, acts[0]);
      assert Entry(s.nodes[n], action) <= Entry(s'.nodes[n], action);
      EntriesGrow(c, s', acts[1..], n, action);
    }
  }

  function Backing(signers: set<SignerId>, r: Digest): set<Attestation> {
    set x | x in signers :: Attestation(x, r)
  }

  /** Two nodes, the first of which has filed `atts`. */
  function Filed(atts: set<Attestation>, action: Digest): seq<Node> {
    [Node(if atts == {} then map[] else map[action := atts], map[]), Node(map[], map[])]
  }

  /** One more honest signer signs and is filed. */
  lemma FileOne(c: Config, s: State, atts: set<Attestation>, action: Digest, x: SignerId)
    requires s.nodes == Filed(atts, action) && x !in c.byzantine
    ensures var s1 := Next(c, s, HonestSign(x, action, []));
            var file := Attest(0, action, Attestation(x, c.truth(action)), []);
            Enabled(c, s1, file) && Next(c, s1, file).nodes == Filed(atts + {Attestation(x, c.truth(action))}, action)
  {
    var s1, att := Next(c, s, HonestSign(x, action, [])), Attestation(x, c.truth(action));
    assert Authentic(s1, x, Statement(action, att.result), []);
    assert Entry(s1.nodes[0], action) == atts;
    assert s1.nodes[0].entries[action := atts + {att}] == map[action := atts + {att}];
  }

  /** Some honest signers attest the truth at the first of two nodes. */
  lemma {:induction false} HonestAttest(c: Config, s0: State, signers: set<SignerId>, action: Digest) returns (acts: seq<Action>)
    requires signers !! c.byzantine && s0 == State({}, Filed({}, action))
    ensures Runs(c, s0, acts) && After(c, s0, acts).nodes == Filed(Backing(signers, c.truth(action)), action)
  {
    var r := c.truth(action);
    acts := [];
    if signers == {} {
      assert Backing(signers, r) == {};
    } else {
      var x :| x in signers;
      acts := HonestAttest(c, s0, signers - {x}, action);
      FileOne(c, After(c, s0, acts), Backing(signers - {x}, r), action, x);
      var sign, file := HonestSign(x, action, []), Attest(0, action, Attestation(x, r), []);
      RunSnoc(c, s0, acts, sign);
      acts := acts + [sign];
      RunSnoc(c, s0, acts, file);
      acts := acts + [file];
      assert Backing(signers - {x}, r) + {Attestation(x, r)} == Backing(signers, r);
    }
  }

  lemma OneResult(signers: set<SignerId>, r: Digest, k: nat)
    requires 1 <= k <= |signers|
    ensures Resolve(Backing(signers, r), k) == Confirmed(r)
  {
    var atts := Backing(signers, r);
    assert SignersFor(atts, r) == signers by {
      forall x | x in signers ensures x in SignersFor(atts, r) {
        assert Attestation(x, r) in atts;
      }
    }
    forall q | q != r ensures !IsConfirmed(atts, q, k) {
      assert SignersFor(atts, q) == {};
    }
    ResolveExact(atts, k);
  }

  /** The two nodes once enough honest signers have attested the truth at the first, which holds
      its body if `first`, and the second has heard of it and holds the body if `second`. */
  function Told(atts: set<Attestation>, action: Digest, r: Digest, body: Bytes, first: bool, heard: bool, second: bool): seq<Node> {
    [Node(map[action := atts], if first then map[r := body] else map[]),
     Node(if heard then map[action := atts] else map[], if second then map[r := body] else map[])]
  }

  lemma ThenTell(c: Config, s0: State, acts: seq<Action>, action: Digest, atts: set<Attestation>, body: Bytes)
    returns (more: seq<Action>)
    requires Runs(c, s0, acts) && Verifies(c.h, c.truth(action), body) && atts != {}
    requires After(c, s0, acts).nodes == Filed(atts, action)
    ensures Runs(c, s0, more) && After(c, s0, more).nodes == Told(atts, action, c.truth(action), body, true, true, true)
  {
    var r := c.truth(action);
    RunSnoc(c, s0, acts, Put(0, r, body));
    more := acts + [Put(0, r, body)];
    assert After(c, s0, more).nodes == Told(atts, action, r, body, true, false, false);
    RunSnoc(c, s0, more, Gossip(1, 0, action));
    more := more + [Gossip(1, 0, action)];
    assert {} + atts == atts;
    assert After(c, s0, more).nodes == Told(atts, action, r, body, true, true, false);
    RunSnoc(c, s0, more, Put(1, r, body));
    more := more + [Put(1, r, body)];
  }

  lemma HitAt(k: nat, node: Node, action: Digest, d: Digest, v: ActionResult)
    requires action in node.entries && Resolve(node.entries[action], k) == Confirmed(d)
    requires d in node.cas && DecodeResult(node.cas[d]) == Some(v)
    ensures Get(k, node, action) == Hit(v)
  {
  }

  lemma NotHeldAt(k: nat, node: Node, action: Digest, d: Digest)
    requires action in node.entries && Resolve(node.entries[action], k) == Confirmed(d) && d !in node.cas
    ensures Get(k, node, action) == NotHeld(d)
  {
  }

  /** With k honest signers the protocol answers: a run leads to two nodes, the one attested to
      and one that heard of it through gossip, that both hold the confirmed body. */
  lemma HonestRun(c: Config, signers: set<SignerId>, action: Digest, body: Bytes) returns (s0: State, acts: seq<Action>)
    requires signers !! c.byzantine && 1 <= |signers| && Verifies(c.h, c.truth(action), body)
    ensures Init(s0) && Runs(c, s0, acts)
    ensures After(c, s0, acts).nodes
            == Told(Backing(signers, c.truth(action)), action, c.truth(action), body, true, true, true)
  {
    s0 := State({}, Filed({}, action));
    acts := HonestAttest(c, s0, signers, action);
    SomeBacking(signers, c.truth(action));
    acts := ThenTell(c, s0, acts, action, Backing(signers, c.truth(action)), body);
  }

  /** Both then answer with the true value. */
  lemma HonestRunHits(c: Config, signers: set<SignerId>, action: Digest, body: Bytes, v: ActionResult, n: nat)
    returns (s0: State, acts: seq<Action>)
    requires signers !! c.byzantine && 1 <= c.k <= |signers| && n < 2
    requires Verifies(c.h, c.truth(action), body) && DecodeResult(body) == Some(v)
    ensures Init(s0) && Runs(c, s0, acts) && |After(c, s0, acts).nodes| == 2
    ensures Get(c.k, After(c, s0, acts).nodes[n], action) == Hit(v)
  {
    s0, acts := HonestRun(c, signers, action, body);
    OneResult(signers, c.truth(action), c.k);
    HitAt(c.k, After(c, s0, acts).nodes[n], action, c.truth(action), v);
  }

  /** Losing the body of a confirmed result turns the answer into "not held", never a miss. */
  lemma EvictedIsNotHeld(c: Config, s: State, n: nat, action: Digest, d: Digest)
    requires n < |s.nodes| && action in s.nodes[n].entries && Resolve(s.nodes[n].entries[action], c.k) == Confirmed(d)
    ensures Get(c.k, Next(c, s, Evict(n, d)).nodes[n], action) == NotHeld(d)
  {
    NotHeldAt(c.k, Next(c, s, Evict(n, d)).nodes[n], action, d);
  }

  /** A restart forgets what was collected, so every lookup there misses, and keeps the bodies. */
  lemma RestartForgets(c: Config, s: State, n: nat, action: Digest)
    requires n < |s.nodes| && c.k >= 1
    ensures Enabled(c, s, Restart(n)) && Get(c.k, Next(c, s, Restart(n)).nodes[n], action) == Miss
    ensures Next(c, s, Restart(n)).nodes[n].cas == s.nodes[n].cas
  {
  }

  lemma SomeBacking(signers: set<SignerId>, r: Digest)
    requires |signers| >= 1
    ensures Backing(signers, r) != {}
  {
    var x :| x in signers;
    assert Attestation(x, r) in Backing(signers, r);
  }

  // ---- The cache object ----

  datatype AttestError = Unverified(signer: SignerId)

  /** One node's action cache: entries that only grow, over a shared blob store. `verify` is
      the signature seam. */
  class MemActionCache {
    const k: nat
    const verify: (SignerId, Bytes, Signature) -> bool
    var entries: map<Digest, set<Attestation>>
    var cas: map<Digest, Bytes>

    constructor (k: nat, verify: (SignerId, Bytes, Signature) -> bool, cas: map<Digest, Bytes>)
      ensures this.k == k && this.verify == verify && View() == Node(map[], cas)
    {
      this.k, this.verify, this.cas := k, verify, cas;
      entries := map[];
    }

    function View(): Node
      reads this
    {
      Node(entries, cas)
    }

    /** Verify strictly before inserting; a rejected attestation changes nothing. */
    method AttestActionResult(action: Digest, att: Attestation, signature: Signature)
      returns (r: Result<(), AttestError>)
      modifies this
      ensures r.Ok? <==> verify(att.signer, Statement(action, att.result), signature)
      ensures r.Err? ==> r.error == Unverified(att.signer) && View() == old(View())
      ensures r.Ok? ==> View() == Grow(old(View()), action, {att})
      ensures r.Ok? ==> entries == old(entries)[action := (if action in old(entries) then old(entries)[action] else {}) + {att}]
      ensures cas == old(cas)
    {
      var message := Statement(action, att.result);
      if !verify(att.signer, message, signature) {
        return Err(Unverified(att.signer));
      }
      entries := entries[action := Entry(View(), action) + {att}];
      return Ok(());
    }

    /** Miss exactly when nothing is confirmed, a conflict exactly when two results are, and
        otherwise the one confirmed result: its value, or that its body is not held, or that
        the body is no value's encoding. */
    method GetActionResult(action: Digest) returns (r: Lookup)
      requires k >= 1
      ensures r == Get(k, View(), action)
      ensures r == Miss <==> forall q :: !IsConfirmed(Entry(View(), action), q, k)
      ensures r == Conflict <==> exists p, q :: p != q && IsConfirmed(Entry(View(), action), p, k) && IsConfirmed(Entry(View(), action), q, k)
      ensures forall d :: r == NotHeld(d) <==> Only(View(), action, d, k) && d !in cas
      ensures forall v :: r == Hit(v) <==> exists d :: Only(View(), action, d, k) && d in cas && Encodes(cas[d], v)
      ensures r == Malformed <==> exists d :: Only(View(), action, d, k) && d in cas && forall v :: !Encodes(cas[d], v)
    {
      AnswersExactly(k, View(), action);
      if action !in entries {
        return Miss;
      }
      match Resolve(entries[action], k)
      case Unconfirmed => return Miss;
      case Conflicting(_) => return Conflict;
      case Confirmed(d) =>
        if d !in cas {
          return NotHeld(d);
        }
        match DecodeResult(cas[d])
        case Some(v) => return Hit(v);
        case None => return Malformed;
    }
  }
}
