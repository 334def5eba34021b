/** The configured peer list and the push loop over it. */
module PeerList {
  import opened Core
  import opened Replication

  /** A URL without its trailing slashes: two spellings of one peer. */
  function Trim(url: string): string {
    if |url| > 0 && url[|url| - 1] == '/' then Trim(url[..|url| - 1]) else url
  }

  /** Exactly the slashes at the end go. */
  lemma {:induction false} TrimExact(url: string, t: string)
    ensures Trim(url) == t <==>
              && t <= url && (forall i :: |t| <= i < |url| ==> url[i] == '/')
              && (|t| > 0 ==> t[|t| - 1] != '/')
  {
    if |url| > 0 && url[|url| - 1] == '/' {
      var front := url[..|url| - 1];
      TrimExact(front, t);
      assert url == front + ['/'];
      if t <= url && (|t| > 0 ==> t[|t| - 1] != '/') {
        assert |t| == |url| ==> t == url;
        assert t <= front;
      }
      assert forall i :: 0 <= i < |front| ==> url[i] == front[i];
    } else if t <= url && (forall i :: |t| <= i < |url| ==> url[i] == '/') {
      assert |t| == |url|;
    }
  }

  /** So spellings that differ in trailing slashes are one peer. */
  lemma SlashesName(url: string)
    ensures Trim(url + "/") == Trim(url)
  {
    var longer := url + "/";
    assert longer[..|longer| - 1] == url;
  }

  function Names(peers: seq<Peer>): set<string> {
    set i | 0 <= i < |peers| :: Trim(peers[i].url)
  }

  /** The first entry of each name, in order. */
  function Firsts(peers: seq<Peer>): seq<Peer> {
    if |peers| == 0 then []
    else
      var front, last := peers[..|peers| - 1], peers[|peers| - 1];
      if Trim(last.url) in Names(front) then Firsts(front) else Firsts(front) + [last]
  }

  lemma NamesSnoc(peers: seq<Peer>, p: Peer)
    ensures Names(peers + [p]) == Names(peers) + {Trim(p.url)}
  {
    var all := peers + [p];
    forall x | x in Names(peers) ensures x in Names(all) {
      var i :| 0 <= i < |peers| && Trim(peers[i].url) == x;
      assert all[i] == peers[i];
    }
    assert all[|peers|] == p;
    forall x | x in Names(all) ensures x in Names(peers) + {Trim(p.url)} {
      var i :| 0 <= i < |all| && Trim(all[i].url) == x;
      assert i < |peers| ==> all[i] == peers[i];
    }
  }

  ghost predicate DistinctNames(peers: seq<Peer>) {
    forall i, j | 0 <= i < j < |peers| :: Trim(peers[i].url) != Trim(peers[j].url)
  }

  /** No name is listed twice, and none is lost. */
  lemma {:induction false} FirstsDistinct(peers: seq<Peer>)
    ensures DistinctNames(Firsts(peers)) && Names(Firsts(peers)) == Names(peers)
  {
    if |peers| > 0 {
      var front, last := peers[..|peers| - 1], peers[|peers| - 1];
      FirstsDistinct(front);
      assert peers == front + [last];
      NamesSnoc(front, last);
      if Trim(last.url) !in Names(front) {
        var kept := Firsts(front);
        NamesSnoc(kept, last);
        forall i | 0 <= i < |kept| ensures Trim(kept[i].url) != Trim(last.url) {
          assert Trim(kept[i].url) in Names(kept);
        }
      }
    }
  }

  lemma {:induction false} FirstsGrow(a: seq<Peer>, b: seq<Peer>)
    ensures Firsts(a) <= Firsts(a + b)
  {
    if |b| == 0 {
      assert a + b == a;
    } else {
      var front := b[..|b| - 1];
      FirstsGrow(a, front);
      assert (a + b)[..|a + b| - 1] == a + front;
    }
  }

  lemma FirstsSnoc(a: seq<Peer>, p: Peer)
    requires Trim(p.url) !in Names(a)
    ensures Firsts(a + [p]) == Firsts(a) + [p]
  {
    assert (a + [p])[..|a|] == a;
  }

  /** Of entries with one name the first is kept, after what was kept before it. */
  lemma FirstStays(a: seq<Peer>, p: Peer, b: seq<Peer>)
    requires Trim(p.url) !in Names(a)
    ensures Firsts(a) + [p] <= Firsts(a + [p] + b)
  {
    FirstsSnoc(a, p);
    FirstsGrow(a + [p], b);
  }

  /** `PeerSet` keeps one entry per name, by a seen-set. */
  method Retain(peers: seq<Peer>) returns (kept: seq<Peer>)
    ensures kept == Firsts(peers)
    ensures DistinctNames(kept) && Names(kept) == Names(peers)
  {
    kept := [];
    var seen: set<string> := {};
    for i := 0 to |peers|
      invariant kept == Firsts(peers[..i]) && seen == Names(peers[..i])
    {
      assert peers[..i + 1] == peers[..i] + [peers[i]];
      NamesSnoc(peers[..i], peers[i]);
      var name := Trim(peers[i].url);
      if name !in seen {
        seen := seen + {name};
        kept := kept + [peers[i]];
      }
    }
    assert peers[..|peers|] == peers;
    FirstsDistinct(peers);
  }

  /** When every node answers to one name only and this node's is not listed, distinct names
      are enough for the replication promise. */
  lemma DistinctNamesSpread(c: Config, n: nat)
    requires Formed(c) && n < |c.modes|
    requires forall u, v :: c.reach(u).Some? && c.reach(u) == c.reach(v) ==> Trim(u) == Trim(v)
    requires forall i, j | 0 <= i < j < |c.durable[n]| :: Trim(c.durable[n][i]) != Trim(c.durable[n][j])
    requires forall i :: 0 <= i < |c.durable[n]| ==> c.reach(c.durable[n][i]) != Some(n)
    ensures Spread(c, n)
  {
    forall js: set<nat> | AllPermanent(c, n, js) && |js| == Target(c, n)
      ensures n !in NodesAt(c, n, js) && |NodesAt(c, n, js)| == |js|
    {
      LeadsInjective(c, n, js);
    }
  }

  /** The durable peers the push loop goes through, in order. */
  function DurableUrls(peers: seq<Peer>): seq<string> {
    if |peers| == 0 then []
    else (if peers[0].durable then [peers[0].url] else []) + DurableUrls(peers[1..])
  }

  /** Two names for one node pass the de-duplication, and break the promise: the node waits for
      two peer copies and counts the one other node twice. */
  lemma TwoNamesBreakIt() returns (c: Config, peers: seq<Peer>)
    ensures Formed(c) && |c.modes| == 2 && c.modes[0].WriteOnly? && c.factor[0] == 3
    ensures Firsts(peers) == peers && c.durable[0] == DurableUrls(Firsts(peers))
    ensures |c.durable[0]| == c.factor[0] - 1 && !Replicates(c, 0)
  {
    var first, second := "http://b", "http://b.local";
    peers := [Peer(first, true), Peer(second, true)];
    c := Config([WriteOnly, WriteOnly], [3, 1], [[first, second], []],
                (u: string) => if u == "http://b" || u == "http://b.local" then Some(1) else None);
    TwoKept(first, second);
    TwoUrls(first, second);
    var js: set<nat> := {0, 1};
    assert NodesAt(c, 0, js) == {1};
    ReplicationExact(c, 0);
  }

  lemma TwoKept(u: string, v: string)
    requires |u| > 0 && |v| > 0 && u[|u| - 1] != '/' && v[|v| - 1] != '/' && u != v
    ensures Firsts([Peer(u, true), Peer(v, true)]) == [Peer(u, true), Peer(v, true)]
  {
    var p, q := Peer(u, true), Peer(v, true);
    assert [p, q][..1] == [p] && [p][..0] == [];
    NamesSnoc([], p);
    assert [] + [p] == [p] && Names([]) == {};
    assert Firsts([p]) == [] + [p];
  }

  lemma TwoUrls(u: string, v: string)
    ensures DurableUrls([Peer(u, true), Peer(v, true)]) == [u, v]
  {
    var p, q := Peer(u, true), Peer(v, true);
    assert [p, q][1..] == [q] && [q][1..] == [];
    assert DurableUrls([q]) == [v] + [];
  }

  lemma {:induction false} LeadsInjective(c: Config, n: nat, js: set<nat>)
    requires AllPermanent(c, n, js)
    requires forall u, v :: c.reach(u).Some? && c.reach(u) == c.reach(v) ==> Trim(u) == Trim(v)
    requires forall i, j | 0 <= i < j < |c.durable[n]| :: Trim(c.durable[n][i]) != Trim(c.durable[n][j])
    ensures |NodesAt(c, n, js)| == |js|
  {
    if js != {} {
      var j :| j in js;
      LeadsInjective(c, n, js - {j});
      var rest := NodesAt(c, n, js - {j});
      assert NodesAt(c, n, js) == rest + {Lead(c, n, j)};
      forall k | k in js - {j} ensures Lead(c, n, k) != Lead(c, n, j) {
        assert Trim(c.durable[n][k]) != Trim(c.durable[n][j]);
      }
    }
  }

  // ---- The push loop ----

  /** What comes of asking one durable peer: its answer to the first probe, whether the local
      copy could then be read, the push, and the answer to the second probe. */
  datatype Exchange = Exchange(first: bool, readable: bool, pushed: bool, second: bool)

  predicate Confirms(e: Exchange) {
    e.first || (e.pushed && e.second)
  }

  /** The local copy is only read to push it. */
  predicate Unreadable(e: Exchange) {
    !e.first && !e.readable
  }

  function CountHeld(es: seq<Exchange>): nat {
    if |es| == 0 then 0 else CountHeld(es[..|es| - 1]) + if Confirms(es[|es| - 1]) then 1 else 0
  }

  function CountSent(es: seq<Exchange>): nat {
    if |es| == 0 then 0
    else CountSent(es[..|es| - 1]) + if !es[|es| - 1].first && Confirms(es[|es| - 1]) then 1 else 0
  }

  lemma CountNext(es: seq<Exchange>, k: nat)
    requires k < |es|
    ensures CountHeld(es[..k + 1]) == CountHeld(es[..k]) + if Confirms(es[k]) then 1 else 0
    ensures CountSent(es[..k + 1]) == CountSent(es[..k]) + if !es[k].first && Confirms(es[k]) then 1 else 0
  {
    assert es[..k + 1][..k] == es[..k];
  }

  datatype Pushed = Pushed(held: nat, sent: nat)

  datatype PushError = LocalUnreadable

  /** Ask peers in turn until `target` confirm or none is left; `asked` peers were asked. A local
      copy that cannot be read when it is needed ends the loop with an error. */
  method PushCounting(es: seq<Exchange>, target: nat) returns (r: Result<Pushed, PushError>, asked: nat)
    ensures asked <= |es| && CountHeld(es[..asked]) <= target
    ensures forall i :: 0 <= i < asked ==> CountHeld(es[..i]) < target && (es[i].first || es[i].readable)
    ensures r.Err? <==> asked < |es| && CountHeld(es[..asked]) < target && !es[asked].first && !es[asked].readable
    ensures r.Ok? ==> r.value == Pushed(CountHeld(es[..asked]), CountSent(es[..asked])) && r.value.sent <= r.value.held
    ensures r.Ok? && r.value.held < target ==> asked == |es|
  {
    var held, sent := 0, 0;
    asked := 0;
    while asked < |es| && held < target
      invariant asked <= |es| && held == CountHeld(es[..asked]) && sent == CountSent(es[..asked])
      invariant sent <= held <= target
      invariant forall i :: 0 <= i < asked ==> CountHeld(es[..i]) < target && (es[i].first || es[i].readable)
    {
      CountNext(es, asked);
      var e := es[asked];
      if Unreadable(e) {
        return Err(LocalUnreadable), asked;
      }
      asked := asked + 1;
      if !e.first {
        if !e.pushed || !e.second {
          continue;
        }
        sent := sent + 1;
      }
      held := held + 1;
    }
    r := Ok(Pushed(held, sent));
  }
}
