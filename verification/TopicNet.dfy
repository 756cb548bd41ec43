/**
 A network of servers that flood accepted topic bursts: it comes to rest, and then all connected
 servers have the same topic, the newest of those they began with.
 */
module TopicNet {
  import opened Basics
  import opened IrcStrings
  import opened TopicBurst

  /** Servers are numbers below n; edges are links, listed in both directions. */
  datatype Graph = Graph(n: nat, edges: set<(nat, nat)>)

  ghost predicate GraphOk(g: Graph) {
    forall e | e in g.edges :: e.0 < g.n && e.1 < g.n && (e.1, e.0) in g.edges
  }

  /** A burst on its way over a link. */
  datatype Packet = Packet(src: nat, dst: nat, burst: Burst)

  /** The channel as every server has it, and the packets under way. */
  datatype Net = Net(chans: seq<Chan>, wire: multiset<Packet>)

  /** sendto_server: to every neighbour but one. */
  ghost function Sends(g: Graph, from: nat, but: Option<nat>, b: Burst): set<Packet> {
    set e | e in g.edges && e.0 == from && Some(e.1) != but :: Packet(from, e.1, b)
  }

  /** One packet arrives. */
  ghost function Deliver(g: Graph, net: Net, p: Packet): Net
    requires p.dst < |net.chans|
  {
    var c := net.chans[p.dst];
    Net(net.chans[p.dst := Receive(c, p.burst, false)],
        net.wire - multiset{p} +
        if Accepts(c, p.burst, false) then multiset(Sends(g, p.dst, Some(p.src), p.burst)) else multiset{})
  }

  // ---------------------------------------------------------------------------------------
  // The invariant
  // ---------------------------------------------------------------------------------------

  ghost predicate NetOk(g: Graph, net: Net, created: int) {
    && |net.chans| == g.n
    && (forall i | 0 <= i < g.n :: net.chans[i].created == created)
    && (forall p | p in net.wire ::
          (p.src, p.dst) in g.edges && p.src < g.n && p.dst < g.n && p.burst.channelTime == created)
  }

  /** A server has at least the topic of any packet it sent. */
  ghost predicate SendersKnow(net: Net) {
    forall p | p in net.wire && p.src < |net.chans| :: net.chans[p.src].topic.time >= p.burst.topicTime
  }

  /** Over a link a server knows a topic that is no older, or one is under way to it. */
  ghost predicate Informed(net: Net, u: nat, v: nat) {
    u < |net.chans| && v < |net.chans| &&
    (net.chans[v].topic.time >= net.chans[u].topic.time ||
     exists p :: p in net.wire && p.src == u && p.dst == v && p.burst.topicTime >= net.chans[u].topic.time)
  }

  ghost predicate AllInformed(g: Graph, net: Net) {
    forall e | e in g.edges :: Informed(net, e.0, e.1)
  }

  /** Topics set at one time are one topic. */
  ghost predicate Agrees(net: Net, known: map<int, Topic>) {
    && (forall i | 0 <= i < |net.chans| :: Knows(known, net.chans[i].topic))
    && (forall p | p in net.wire :: Knows(known, Stored(p.burst)))
  }

  ghost predicate Knows(known: map<int, Topic>, t: Topic) {
    t.time in known && known[t.time] == t
  }

  lemma SendsAre(g: Graph, from: nat, but: Option<nat>, b: Burst, p: Packet)
    ensures p in Sends(g, from, but, b) <==>
            p.src == from && p.burst == b && (from, p.dst) in g.edges && Some(p.dst) != but
  {
    if p.src == from && p.burst == b && (from, p.dst) in g.edges && Some(p.dst) != but {
      var e := (from, p.dst);
      assert e in g.edges && Packet(from, e.1, b) == p;
    }
  }

  lemma OnWire(g: Graph, net: Net, p: Packet, q: Packet)
    requires p in net.wire && p.dst < |net.chans|
    ensures q in Deliver(g, net, p).wire ==>
              q in net.wire || (Accepts(net.chans[p.dst], p.burst, false) && q in Sends(g, p.dst, Some(p.src), p.burst))
    ensures q in net.wire && q != p ==> q in Deliver(g, net, p).wire
    ensures Accepts(net.chans[p.dst], p.burst, false) && q in Sends(g, p.dst, Some(p.src), p.burst) ==>
              q in Deliver(g, net, p).wire
  {
  }

  lemma DeliverKeepsOk(g: Graph, net: Net, p: Packet, created: int)
    requires GraphOk(g) && NetOk(g, net, created) && p in net.wire
    ensures NetOk(g, Deliver(g, net, p), created)
  {
    var d := Deliver(g, net, p);
    forall q | q in d.wire
      ensures (q.src, q.dst) in g.edges && q.src < g.n && q.dst < g.n && q.burst.channelTime == created
    {
      OnWire(g, net, p, q);
      SendsAre(g, p.dst, Some(p.src), p.burst, q);
    }
  }

  lemma DeliverKeepsKnow(g: Graph, net: Net, p: Packet, created: int)
    requires GraphOk(g) && NetOk(g, net, created) && p in net.wire && SendersKnow(net)
    ensures SendersKnow(Deliver(g, net, p))
  {
    var d := Deliver(g, net, p);
    forall q | q in d.wire && q.src < |d.chans| ensures d.chans[q.src].topic.time >= q.burst.topicTime {
      OnWire(g, net, p, q);
      SendsAre(g, p.dst, Some(p.src), p.burst, q);
    }
  }

  lemma DeliverKeepsInformed(g: Graph, net: Net, p: Packet, created: int, u: nat, v: nat)
    requires GraphOk(g) && NetOk(g, net, created) && p in net.wire && SendersKnow(net)
    requires (u, v) in g.edges && Informed(net, u, v)
    ensures Informed(Deliver(g, net, p), u, v)
  {
    var d := Deliver(g, net, p);
    if Accepts(net.chans[p.dst], p.burst, false) && p.dst == u {
      // u has a new topic: v sent it, or is told.
      if v != p.src {
        var q := Packet(u, v, p.burst);
        SendsAre(g, u, Some(p.src), p.burst, q);
        OnWire(g, net, p, q);
        assert q in d.wire;
      }
    } else if d.chans[v].topic.time < d.chans[u].topic.time {
      var q :| q in net.wire && q.src == u && q.dst == v && q.burst.topicTime >= net.chans[u].topic.time;
      OnWire(g, net, p, q);
      assert q != p;
    }
  }

  lemma DeliverKeepsAgrees(g: Graph, net: Net, p: Packet, created: int, known: map<int, Topic>)
    requires GraphOk(g) && NetOk(g, net, created) && p in net.wire && Agrees(net, known)
    ensures Agrees(Deliver(g, net, p), known)
  {
    var d := Deliver(g, net, p);
    forall q | q in d.wire ensures Knows(known, Stored(q.burst)) {
      OnWire(g, net, p, q);
      SendsAre(g, p.dst, Some(p.src), p.burst, q);
    }
  }

  ghost predicate Inv(g: Graph, net: Net, created: int, known: map<int, Topic>) {
    NetOk(g, net, created) && SendersKnow(net) && AllInformed(g, net) && Agrees(net, known)
  }

  lemma DeliverKeeps(g: Graph, net: Net, p: Packet, created: int, known: map<int, Topic>)
    requires GraphOk(g) && Inv(g, net, created, known) && p in net.wire
    ensures Inv(g, Deliver(g, net, p), created, known)
  {
    DeliverKeepsOk(g, net, p, created);
    DeliverKeepsKnow(g, net, p, created);
    DeliverKeepsAgrees(g, net, p, created, known);
    forall e | e in g.edges ensures Informed(Deliver(g, net, p), e.0, e.1) {
      DeliverKeepsInformed(g, net, p, created, e.0, e.1);
    }
  }

  // ---------------------------------------------------------------------------------------
  // At rest
  // ---------------------------------------------------------------------------------------

  /** A walk over links. */
  ghost predicate Walk(g: Graph, path: seq<nat>) {
    forall i | 0 <= i < |path| - 1 :: (path[i], path[i + 1]) in g.edges
  }

  lemma {:induction false} RestAgrees(g: Graph, net: Net, created: int, known: map<int, Topic>, path: seq<nat>)
    requires GraphOk(g) && Inv(g, net, created, known) && net.wire == multiset{}
    requires |path| > 0 && Walk(g, path) && path[0] < g.n
    ensures path[|path| - 1] < g.n && net.chans[path[|path| - 1]].topic == net.chans[path[0]].topic
    decreases |path|
  {
    if |path| > 1 {
      var init := path[..|path| - 1];
      RestAgrees(g, net, created, known, init);
      var u, v := path[|path| - 2], path[|path| - 1];
      assert (u, v) in g.edges && (v, u) in g.edges;
      assert Informed(net, u, v) && Informed(net, v, u);
      assert Knows(known, net.chans[u].topic) && Knows(known, net.chans[v].topic);
    }
  }

  // ---------------------------------------------------------------------------------------
  // It comes to rest
  // ---------------------------------------------------------------------------------------

  /** The topics that a server could still accept. */
  ghost function Ahead(times: set<int>, c: Chan): set<int> {
    set t | t in times && t > c.topic.time
  }

  ghost function Rank(times: set<int>, cs: seq<Chan>): nat {
    if cs == [] then 0 else |Ahead(times, cs[0])| + Rank(times, cs[1..])
  }

  /** Every acceptance costs a rank and sends at most one packet per link. */
  ghost function Measure(g: Graph, times: set<int>, net: Net): nat {
    (|g.edges| + 1) * Rank(times, net.chans) + |net.wire|
  }

  lemma {:induction false} RankDrops(times: set<int>, cs: seq<Chan>, i: nat, c: Chan)
    requires i < |cs| && c.topic.time in times && c.topic.time > cs[i].topic.time
    ensures Rank(times, cs[i := c]) < Rank(times, cs)
  {
    if i == 0 {
      assert cs[0 := c][1..] == cs[1..];
      assert c.topic.time in Ahead(times, cs[0]) && c.topic.time !in Ahead(times, c);
      Fewer(Ahead(times, c), Ahead(times, cs[0]));
    } else {
      assert cs[i := c][1..] == cs[1..][i - 1 := c];
      RankDrops(times, cs[1..], i - 1, c);
    }
  }

  lemma Fewer(a: set<int>, b: set<int>)
    requires a < b
    ensures |a| < |b|
  {
    assert b == a + (b - a) && b - a != {};
  }

  lemma SendsWithout(a: Graph, b: Graph, e: (nat, nat), from: nat, but: Option<nat>, burst: Burst)
    requires e in a.edges && b.edges == a.edges - {e}
    ensures Sends(a, from, but, burst) <= Sends(b, from, but, burst) + {Packet(from, e.1, burst)}
  {
  }

  lemma {:induction false} FewSends(edges: set<(nat, nat)>, from: nat, but: Option<nat>, b: Burst)
    ensures |Sends(Graph(0, edges), from, but, b)| <= |edges|
    decreases |edges|
  {
    if edges == {} {
      assert Sends(Graph(0, edges), from, but, b) == {};
    } else {
      var e :| e in edges;
      var rest, last := Sends(Graph(0, edges - {e}), from, but, b), {Packet(from, e.1, b)};
      FewSends(edges - {e}, from, but, b);
      SendsWithout(Graph(0, edges), Graph(0, edges - {e}), e, from, but, b);
      SubsetSize(Sends(Graph(0, edges), from, but, b), rest + last);
    }
  }

  lemma SubsetSize<X>(a: set<X>, b: set<X>)
    requires a <= b
    ensures |a| <= |b|
  {
    assert b == a + (b - a);
  }

  lemma DeliverDrops(g: Graph, net: Net, p: Packet, times: set<int>)
    requires p in net.wire && p.dst < |net.chans| && p.burst.channelTime == net.chans[p.dst].created
    requires p.burst.topicTime in times
    ensures Measure(g, times, Deliver(g, net, p)) < Measure(g, times, net)
  {
    var c := net.chans[p.dst];
    if Accepts(c, p.burst, false) {
      FewSends(g.edges, p.dst, Some(p.src), p.burst);
      assert Sends(g, p.dst, Some(p.src), p.burst) == Sends(Graph(0, g.edges), p.dst, Some(p.src), p.burst);
      RankDrops(times, net.chans, p.dst, Receive(c, p.burst, false));
      Costs(|g.edges| + 1, Rank(times, Deliver(g, net, p).chans), Rank(times, net.chans));
    } else {
      assert net.chans[p.dst := c] == net.chans;
    }
  }

  lemma Costs(k: nat, a: nat, b: nat)
    requires a < b
    ensures k * a + k <= k * b
  {
    assert k * b == k * a + k * (b - a);
    assert k * (b - a) >= k * 1 by {
      if b - a > 1 {
        assert k * (b - a) == k + k * (b - a - 1);
      }
    }
  }

  /** These packets can arrive in this order. */
  ghost predicate Possible(g: Graph, net: Net, ps: seq<Packet>)
    decreases |ps|
  {
    ps == [] || (ps[0] in net.wire && ps[0].dst < |net.chans| && Possible(g, Deliver(g, net, ps[0]), ps[1..]))
  }

  ghost function After(g: Graph, net: Net, ps: seq<Packet>): Net
    requires Possible(g, net, ps)
    decreases |ps|
  {
    if ps == [] then net else After(g, Deliver(g, net, ps[0]), ps[1..])
  }

  /** No server has an older topic in the second net. */
  ghost predicate NotOlder(a: Net, b: Net) {
    |a.chans| == |b.chans| && forall i | 0 <= i < |a.chans| :: b.chans[i].topic.time >= a.chans[i].topic.time
  }

  lemma DeliverNotOlder(g: Graph, net: Net, p: Packet, created: int, end: Net)
    requires NetOk(g, net, created) && p in net.wire && NotOlder(Deliver(g, net, p), end)
    ensures NotOlder(net, end)
  {
    var d := Deliver(g, net, p);
    assert forall i | 0 <= i < |net.chans| :: d.chans[i].topic.time >= net.chans[i].topic.time;
  }

  lemma {:induction false} RunKeeps(g: Graph, net: Net, ps: seq<Packet>, created: int, known: map<int, Topic>)
    requires GraphOk(g) && Inv(g, net, created, known) && Possible(g, net, ps)
    ensures Inv(g, After(g, net, ps), created, known) && NotOlder(net, After(g, net, ps))
    decreases |ps|
  {
    if ps != [] {
      DeliverKeeps(g, net, ps[0], created, known);
      RunKeeps(g, Deliver(g, net, ps[0]), ps[1..], created, known);
      DeliverNotOlder(g, net, ps[0], created, After(g, net, ps));
    }
  }

  /** Flooding stops: no more packets arrive than the measure at the start. */
  lemma {:induction false} RunEnds(g: Graph, net: Net, ps: seq<Packet>, created: int, known: map<int, Topic>)
    requires GraphOk(g) && Inv(g, net, created, known) && Possible(g, net, ps)
    ensures |ps| <= Measure(g, known.Keys, net)
    decreases |ps|
  {
    if ps != [] {
      var p := ps[0];
      assert Knows(known, Stored(p.burst));
      DeliverDrops(g, net, p, known.Keys);
      DeliverKeeps(g, net, p, created, known);
      RunEnds(g, Deliver(g, net, p), ps[1..], created, known);
    }
  }

  // ---------------------------------------------------------------------------------------
  // After a join
  // ---------------------------------------------------------------------------------------

  ghost function Own(c: Chan): Burst {
    Burst(c.created, c.topic.time, c.topic.setter, c.topic.text)
  }

  ghost function Bursts(edges: set<(nat, nat)>, cs: seq<Chan>): set<Packet> {
    set e | e in edges && e.0 < |cs| :: Packet(e.0, e.1, Own(cs[e.0]))
  }

  /** Every server has sent its topic over every link. */
  ghost function Joined(g: Graph, cs: seq<Chan>): Net {
    Net(cs, multiset(Bursts(g.edges, cs)))
  }

  ghost predicate OneTopicPerTime(cs: seq<Chan>) {
    forall i, j | 0 <= i < |cs| && 0 <= j < |cs| && cs[i].topic.time == cs[j].topic.time :: cs[i].topic == cs[j].topic
  }

  /** The topics the servers begin with: within the buffers, and one topic per time. */
  ghost predicate StartOk(g: Graph, cs: seq<Chan>, created: int) {
    && |cs| == g.n
    && (forall i | 0 <= i < |cs| ::
          cs[i].created == created && |cs[i].topic.text| <= TOPICLEN && |cs[i].topic.setter| <= INFOLEN)
    && OneTopicPerTime(cs)
  }

  ghost predicate Initial(cs: seq<Chan>, known: map<int, Topic>) {
    && (forall i | 0 <= i < |cs| :: Knows(known, cs[i].topic))
    && (forall t | t in known :: exists i :: 0 <= i < |cs| && cs[i].topic == known[t])
  }

  lemma {:induction false} InitialTopics(cs: seq<Chan>) returns (known: map<int, Topic>)
    requires OneTopicPerTime(cs)
    ensures Initial(cs, known) && |known.Keys| <= |cs|
  {
    if cs == [] {
      known := map[];
    } else {
      var k := |cs| - 1;
      var before := InitialTopics(cs[..k]);
      known := before[cs[k].topic.time := cs[k].topic];
      assert known.Keys == before.Keys + {cs[k].topic.time};
      forall i | 0 <= i < |cs| ensures Knows(known, cs[i].topic) {
        if i < k {
          assert Knows(before, cs[..k][i].topic);
        }
      }
      forall t | t in known ensures exists i :: 0 <= i < |cs| && cs[i].topic == known[t] {
        if t == cs[k].topic.time {
          assert cs[k].topic == known[t];
        } else {
          var i :| 0 <= i < k && cs[..k][i].topic == before[t];
          assert cs[i].topic == known[t];
        }
      }
    }
  }

  lemma OnJoinedWire(g: Graph, cs: seq<Chan>, p: Packet)
    ensures p in Joined(g, cs).wire <==> (p.src, p.dst) in g.edges && p.src < |cs| && p.burst == Own(cs[p.src])
  {
    if (p.src, p.dst) in g.edges && p.src < |cs| && p.burst == Own(cs[p.src]) {
      var e := (p.src, p.dst);
      assert e in g.edges && p == Packet(e.0, e.1, Own(cs[e.0]));
    }
  }

  lemma JoinedOk(g: Graph, cs: seq<Chan>, created: int, net: Net)
    requires GraphOk(g) && StartOk(g, cs, created) && net == Joined(g, cs)
    ensures NetOk(g, net, created) && SendersKnow(net)
  {
    forall p | p in net.wire
      ensures (p.src, p.dst) in g.edges && p.src < g.n && p.dst < g.n && p.burst.channelTime == created
      ensures cs[p.src].topic.time >= p.burst.topicTime
    {
      OnJoinedWire(g, cs, p);
      assert GraphOk(g) && (p.src, p.dst) in g.edges && cs[p.src].created == created;
    }
  }

  lemma JoinedInformed(g: Graph, cs: seq<Chan>, created: int, net: Net)
    requires GraphOk(g) && |cs| == g.n && net == Joined(g, cs)
    ensures AllInformed(g, net)
  {
    forall e | e in g.edges ensures Informed(net, e.0, e.1) {
      var p := Packet(e.0, e.1, Own(cs[e.0]));
      OnJoinedWire(g, cs, p);
    }
  }

  lemma StoredOwn(c: Chan)
    requires |c.topic.text| <= TOPICLEN && |c.topic.setter| <= INFOLEN
    ensures Stored(Own(c)) == c.topic
  {
  }

  lemma JoinedAgrees(g: Graph, cs: seq<Chan>, created: int, known: map<int, Topic>, net: Net)
    requires StartOk(g, cs, created) && Initial(cs, known) && net == Joined(g, cs)
    ensures Agrees(net, known)
  {
    forall p | p in net.wire ensures Knows(known, Stored(p.burst)) {
      OnJoinedWire(g, cs, p);
      StoredOwn(cs[p.src]);
    }
  }

  lemma JoinedInv(g: Graph, cs: seq<Chan>, created: int, known: map<int, Topic>)
    requires GraphOk(g) && StartOk(g, cs, created) && Initial(cs, known)
    ensures Inv(g, Joined(g, cs), created, known)
  {
    var net := Joined(g, cs);
    JoinedOk(g, cs, created, net);
    JoinedInformed(g, cs, created, net);
    JoinedAgrees(g, cs, created, known, net);
  }

  /**
   After a join, however the packets arrive, only so many do; and once none is left, servers that are
   connected have one topic: one that a server began with, and none that a connected one began with
   is newer.
   */
  lemma Converges(g: Graph, cs: seq<Chan>, created: int, ps: seq<Packet>, path: seq<nat>)
    requires GraphOk(g) && StartOk(g, cs, created) && Possible(g, Joined(g, cs), ps)
    requires After(g, Joined(g, cs), ps).wire == multiset{}
    requires |path| > 0 && Walk(g, path) && path[0] < g.n
    ensures |After(g, Joined(g, cs), ps).chans| == g.n && path[|path| - 1] < g.n
    ensures var end := After(g, Joined(g, cs), ps).chans; var u, v := path[0], path[|path| - 1];
            && end[u].topic == end[v].topic && end[u].topic.time >= cs[v].topic.time
            && exists i :: 0 <= i < g.n && end[u].topic == cs[i].topic
  {
    var known := InitialTopics(cs);
    JoinedInv(g, cs, created, known);
    RunKeeps(g, Joined(g, cs), ps, created, known);
    RestAgrees(g, After(g, Joined(g, cs), ps), created, known, path);
    assert Knows(known, After(g, Joined(g, cs), ps).chans[path[0]].topic);
  }

  lemma {:induction false} RankBound(times: set<int>, cs: seq<Chan>)
    ensures Rank(times, cs) <= |cs| * |times|
  {
    if cs != [] {
      RankBound(times, cs[1..]);
      assert times == Ahead(times, cs[0]) + (times - Ahead(times, cs[0]));
      assert |cs| * |times| == |times| + |cs[1..]| * |times|;
    }
  }

  lemma {:induction false} FewBursts(edges: set<(nat, nat)>, cs: seq<Chan>)
    ensures |Bursts(edges, cs)| <= |edges|
    decreases |edges|
  {
    if edges == {} {
      assert Bursts(edges, cs) == {};
    } else {
      assert |edges| > 0;
      var e: (nat, nat) :| e in edges;
      FewBursts(edges - {e}, cs);
      if e.0 < |cs| {
        assert Bursts(edges, cs) == Bursts(edges - {e}, cs) + {Packet(e.0, e.1, Own(cs[e.0]))};
      } else {
        assert Bursts(edges, cs) == Bursts(edges - {e}, cs);
      }
    }
  }

  lemma JoinMeasure(g: Graph, cs: seq<Chan>, times: set<int>)
    requires |cs| == g.n && |times| <= g.n
    ensures Measure(g, times, Joined(g, cs)) <= (|g.edges| + 1) * (g.n * g.n) + |g.edges|
  {
    FewBursts(g.edges, cs);
    RankBound(times, cs);
    Product(g.n, |times|, g.n);
    Product(|g.edges| + 1, Rank(times, cs), g.n * g.n);
  }

  /** The bound: one acceptance for every server and topic, and for each at most one packet per link. */
  lemma JoinEnds(g: Graph, cs: seq<Chan>, created: int, ps: seq<Packet>)
    requires GraphOk(g) && StartOk(g, cs, created) && Possible(g, Joined(g, cs), ps)
    ensures |ps| <= (|g.edges| + 1) * (g.n * g.n) + |g.edges|
  {
    var known := InitialTopics(cs);
    JoinedInv(g, cs, created, known);
    RunEnds(g, Joined(g, cs), ps, created, known);
    JoinMeasure(g, cs, known.Keys);
  }

  lemma Product(k: nat, a: nat, b: nat)
    requires a <= b
    ensures k * a <= k * b
  {
    assert k * b == k * a + k * (b - a);
  }
}
