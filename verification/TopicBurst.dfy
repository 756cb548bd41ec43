/**
 Topic bursts: which topic a server accepts from another one, and what a network of servers that
 forward accepted topics agrees on.
 */
module TopicBurst {
  import opened IrcStrings

  const INFOLEN := NICKLEN + HOSTLEN + USERLEN + 4

  datatype Topic = Topic(text: string, setter: string, time: int)

  /** The part of a channel that matters here. */
  datatype Chan = Chan(created: int, topic: Topic)

  /** TBURST: the time stamps of channel and topic, who set it, and its text, empty to unset it. */
  datatype Burst = Burst(channelTime: int, topicTime: int, setter: string, text: string)

  /** A topic as channel_set_topic stores it. */
  function Stored(b: Burst): Topic {
    Topic(Trunc(b.text, TOPICLEN), Trunc(b.setter, INFOLEN), b.topicTime)
  }

  ghost predicate Accepts(c: Chan, b: Burst, service: bool) {
    service || b.channelTime < c.created || (b.channelTime == c.created && b.topicTime > c.topic.time)
  }

  ghost function Receive(c: Chan, b: Burst, service: bool): Chan {
    if Accepts(c, b, service) then c.(topic := Stored(b)) else c
  }

  class Channel {
    var created: int
    var topic: string
    var topicInfo: string
    var topicTime: int

    ghost function Value(): Chan
      reads this
    {
      Chan(created, Topic(topic, topicInfo, topicTime))
    }

    /** ms_tburst; the burst is forwarded when it is accepted, and members are told when the text is new. */
    method Tburst(b: Burst, service: bool) returns (forward: bool, tell: bool)
      requires |topic| <= TOPICLEN
      modifies this
      ensures Value() == Receive(old(Value()), b, service)
      ensures forward <==> Accepts(old(Value()), b, service)
      ensures forward <==> service || b.channelTime < old(created) ||
                           (b.channelTime == old(created) && b.topicTime > old(topicTime))
      ensures forward ==> && topic == Trunc(b.text, TOPICLEN) && topicTime == b.topicTime
                          && topicInfo == Trunc(b.setter, NICKLEN + USERLEN + HOSTLEN + 4)
      ensures !forward ==> topic == old(topic) && topicInfo == old(topicInfo) && topicTime == old(topicTime)
      ensures tell <==> forward && topic != old(topic)
      ensures created == old(created)
      ensures |topic| <= TOPICLEN
    {
      forward, tell := false, false;
      if service {
        forward := true;
      } else if b.channelTime < created {
        forward := true;
      } else if b.channelTime == created {
        if b.topicTime > topicTime {
          forward := true;
        }
      }
      if forward {
        tell := topic != Trunc(b.text, TOPICLEN);
        topic, topicInfo, topicTime := Trunc(b.text, TOPICLEN), Trunc(b.setter, INFOLEN), b.topicTime;
      }
    }
  }

  // ---------------------------------------------------------------------------------------
  // One server: the order of bursts does not matter
  // ---------------------------------------------------------------------------------------

  ghost function Run(c: Chan, bs: seq<Burst>): Chan
    decreases |bs|
  {
    if bs == [] then c else Run(Receive(c, bs[0], false), bs[1..])
  }

  /** No burst is for an older channel; those would override the topic whatever its time. */
  ghost predicate NoneOlder(c: Chan, bs: seq<Burst>) {
    forall i | 0 <= i < |bs| :: bs[i].channelTime >= c.created
  }

  /** Topics set at the same time are the same topic. */
  ghost predicate Coherent(bs: seq<Burst>) {
    forall i, j | 0 <= i < |bs| && 0 <= j < |bs| && bs[i].topicTime == bs[j].topicTime :: Stored(bs[i]) == Stored(bs[j])
  }

  /** Every topic that matters for the channel is no newer than this time. */
  ghost predicate Newest(c: Chan, bs: seq<Burst>, time: int) {
    c.topic.time <= time && forall i | 0 <= i < |bs| && bs[i].channelTime == c.created :: bs[i].topicTime <= time
  }

  /** In every order the newest topic wins, and the initial one stays if none is newer. */
  lemma {:induction false} NewestWins(c: Chan, bs: seq<Burst>)
    requires NoneOlder(c, bs)
    ensures Run(c, bs).created == c.created && Newest(c, bs, Run(c, bs).topic.time)
    ensures Run(c, bs) == c ||
            exists i :: 0 <= i < |bs| && bs[i].channelTime == c.created && bs[i].topicTime > c.topic.time &&
                        Run(c, bs).topic == Stored(bs[i])
    decreases |bs|
  {
    if bs != [] {
      var d := Receive(c, bs[0], false);
      NewestWins(d, bs[1..]);
      var r := Run(c, bs);
      forall i | 0 <= i < |bs| && bs[i].channelTime == c.created ensures bs[i].topicTime <= r.topic.time {
        if i > 0 {
          assert bs[1..][i - 1] == bs[i];
        }
      }
      if r != d {
        var i :| 0 <= i < |bs[1..]| && bs[1..][i].channelTime == c.created && bs[1..][i].topicTime > d.topic.time &&
                 r.topic == Stored(bs[1..][i]);
        assert bs[i + 1] == bs[1..][i];
      }
    }
  }

  /** Any two orders of the same bursts, with any repetitions, end at the same topic. */
  lemma OrderDoesNotMatter(c: Chan, as': seq<Burst>, bs: seq<Burst>)
    requires NoneOlder(c, as') && NoneOlder(c, bs) && Coherent(as')
    requires forall b: Burst :: b in as' <==> b in bs
    ensures Run(c, as') == Run(c, bs)
  {
    NewestWins(c, as');
    NewestWins(c, bs);
    SameNewest(c, as', bs);
    SameNewest(c, bs, as');
  }

  lemma SameNewest(c: Chan, as': seq<Burst>, bs: seq<Burst>)
    requires NoneOlder(c, as') && NoneOlder(c, bs) && (Coherent(as') || Coherent(bs))
    requires forall b: Burst :: b in as' <==> b in bs
    ensures Run(c, as').topic.time <= Run(c, bs).topic.time
    ensures Run(c, as').topic.time == Run(c, bs).topic.time ==> Run(c, as') == Run(c, bs)
  {
    NewestWins(c, as');
    NewestWins(c, bs);
    var r, s := Run(c, as'), Run(c, bs);
    if r != c {
      var i :| 0 <= i < |as'| && as'[i].channelTime == c.created && as'[i].topicTime > c.topic.time &&
               r.topic == Stored(as'[i]);
      assert as'[i] in bs;
      if r.topic.time == s.topic.time {
        var j :| 0 <= j < |bs| && bs[j].channelTime == c.created && s.topic == Stored(bs[j]);
        assert bs[j] in as';
      }
    }
  }

  /** Two bursts may come in either order exactly when they do not give different topics of one time. */
  lemma TwoOrders(c: Chan, a: Burst, b: Burst)
    requires a.channelTime == b.channelTime == c.created
    ensures Run(c, [a, b]) == Run(c, [b, a]) <==>
            !(a.topicTime == b.topicTime > c.topic.time && Stored(a) != Stored(b))
  {
    assert [a, b][1..] == [b] && [b, a][1..] == [a];
    assert Run(Receive(c, a, false), [b]) == Receive(Receive(c, a, false), b, false);
    assert Run(Receive(c, b, false), [a]) == Receive(Receive(c, b, false), a, false);
  }

  // ---------------------------------------------------------------------------------------
  // One server: bursts that are accepted whatever their time
  // ---------------------------------------------------------------------------------------

  /** A burst, and whether it comes from services. */
  datatype Arrival = Arrival(burst: Burst, service: bool)

  ghost function RunAll(c: Chan, xs: seq<Arrival>): Chan
    decreases |xs|
  {
    if xs == [] then c else RunAll(Receive(c, xs[0].burst, xs[0].service), xs[1..])
  }

  /** From services, or for an older channel. */
  ghost predicate Forces(created: int, x: Arrival) {
    x.service || x.burst.channelTime < created
  }

  ghost predicate NoneForces(created: int, xs: seq<Arrival>) {
    forall i | 0 <= i < |xs| :: !Forces(created, xs[i])
  }

  ghost function Bursts(xs: seq<Arrival>): (bs: seq<Burst>)
    ensures |bs| == |xs| && forall i | 0 <= i < |xs| :: bs[i] == xs[i].burst
  {
    seq(|xs|, i requires 0 <= i < |xs| => xs[i].burst)
  }

  lemma {:induction false} RunAllPlain(c: Chan, xs: seq<Arrival>)
    requires NoneForces(c.created, xs)
    ensures RunAll(c, xs) == Run(c, Bursts(xs))
    decreases |xs|
  {
    if xs != [] {
      assert !Forces(c.created, xs[0]);
      assert Bursts(xs)[1..] == Bursts(xs[1..]);
      RunAllPlain(Receive(c, xs[0].burst, false), xs[1..]);
    }
  }

  lemma {:induction false} RunAllSplit(c: Chan, xs: seq<Arrival>, i: nat)
    requires i <= |xs|
    ensures RunAll(c, xs) == RunAll(RunAll(c, xs[..i]), xs[i..])
    ensures RunAll(c, xs[..i]).created == c.created
    decreases i
  {
    if i == 0 {
      assert xs[..0] == [] && xs[0..] == xs;
    } else {
      var d := Receive(c, xs[0].burst, xs[0].service);
      assert xs[..i][0] == xs[0] && xs[..i][1..] == xs[1..][..i - 1] && xs[i..] == xs[1..][i - 1..];
      RunAllSplit(d, xs[1..], i - 1);
    }
  }

  /** The topic of arrival j, if it was for a channel as old as ours and newer than a time. */
  ghost predicate NewerTopic(created: int, xs: seq<Arrival>, j: nat, time: int, t: Topic) {
    && j < |xs| && xs[j].burst.channelTime == created && xs[j].burst.topicTime > time
    && t == Topic(Trunc(xs[j].burst.text, TOPICLEN), Trunc(xs[j].burst.setter, INFOLEN), xs[j].burst.topicTime)
  }

  /** From arrival i on, with a topic of this time to begin with, the newest topic has won. */
  ghost predicate NewestSince(created: int, xs: seq<Arrival>, i: nat, start: Topic, t: Topic) {
    && start.time <= t.time
    && (forall j | i <= j < |xs| && xs[j].burst.channelTime == created :: xs[j].burst.topicTime <= t.time)
    && (t == start || exists j: nat :: i <= j && NewerTopic(created, xs, j, start.time, t))
  }

  lemma NewestOfRest(c: Chan, xs: seq<Arrival>, i: nat)
    requires i <= |xs| && NoneForces(c.created, xs[i..])
    ensures NewestSince(c.created, xs, i, c.topic, RunAll(c, xs[i..]).topic)
  {
    var ys := xs[i..];
    var r := RunAll(c, ys);
    RunAllPlain(c, ys);
    assert forall j | 0 <= j < |ys| :: !Forces(c.created, ys[j]);
    NewestWins(c, Bursts(ys));
    forall j | i <= j < |xs| && xs[j].burst.channelTime == c.created ensures xs[j].burst.topicTime <= r.topic.time {
      assert Bursts(ys)[j - i] == xs[j].burst;
    }
    if r != c {
      var j :| 0 <= j < |ys| && Bursts(ys)[j].channelTime == c.created && Bursts(ys)[j].topicTime > c.topic.time &&
               r.topic == Stored(Bursts(ys)[j]);
      assert NewerTopic(c.created, xs, i + j, c.topic.time, r.topic);
    }
  }

  /**
   A burst from services or for an older channel overrides the topic, however old its own is; of
   those that follow the newest wins.
   */
  lemma LastForcedThenNewest(c: Chan, xs: seq<Arrival>, i: nat)
    requires i < |xs| && (xs[i].service || xs[i].burst.channelTime < c.created)
    requires forall j | i < j < |xs| :: !xs[j].service && xs[j].burst.channelTime >= c.created
    ensures var b := xs[i].burst;
            var start := Topic(Trunc(b.text, TOPICLEN), Trunc(b.setter, INFOLEN), b.topicTime);
            RunAll(c, xs).created == c.created && NewestSince(c.created, xs, i + 1, start, RunAll(c, xs).topic)
  {
    RunAllSplit(c, xs, i);
    var d := RunAll(c, xs[..i]);
    assert xs[i..][0] == xs[i] && xs[i..][1..] == xs[i + 1..];
    var e := Receive(d, xs[i].burst, xs[i].service);
    NewestOfRest(e, xs, i + 1);
    RunAllSplit(c, xs, |xs|);
    assert xs[..|xs|] == xs;
  }

  /** When nothing overrides, the newest topic wins from the start. */
  lemma UnforcedNewest(c: Chan, xs: seq<Arrival>)
    requires forall j | 0 <= j < |xs| :: !xs[j].service && xs[j].burst.channelTime >= c.created
    ensures RunAll(c, xs).created == c.created && NewestSince(c.created, xs, 0, c.topic, RunAll(c, xs).topic)
  {
    assert xs[0..] == xs;
    NewestOfRest(c, xs, 0);
    RunAllSplit(c, xs, |xs|);
    assert xs[..|xs|] == xs;
  }
}
