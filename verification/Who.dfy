/**
 The global WHO: invisible clients are found over the channels of the requester and marked, so that
 each is listed once; then all visible clients are listed and the marks are taken off again.

 Matching a mask against a text is a parameter.  Replies are recorded in order.
 */
module Who {
  import opened Basics

  const MAXREPLIES := 500

  class User {
    const name: string
    const username: string
    const host: string
    const server: string
    const info: string
    const isClient: bool
    const invisible: bool
    const oper: bool
    const hidden: bool
    var mark: bool

    /** A client without a name or anything else to match. */
    constructor Client(invisible: bool)
      ensures isClient && this.invisible == invisible && !mark
    {
      name, username, host, server, info := "", "", "", "", "";
      isClient, this.invisible, oper, hidden, mark := true, invisible, false, false, false;
    }
  }

  /** matches(mask, text); oper and hideServers say what the requester may see. */
  datatype Query = Query(mask: Option<string>, matches: (string, string) -> bool,
                         serverOper: bool, oper: bool, hideServers: bool)

  datatype Reply = Found(user: User) | LimitExceeded | TooBusy

  predicate Matches(q: Query, u: User, byServer: bool) {
    q.mask.None? ||
    (var m := q.mask.value;
     q.matches(m, u.name) || q.matches(m, u.username) || q.matches(m, u.host) ||
     (byServer && q.matches(m, u.server)) || q.matches(m, u.info))
  }

  predicate Eligible(q: Query, u: User) {
    q.serverOper ==> u.oper && (u.hidden ==> q.oper)
  }

  /** An invisible client is not found by a server name that is kept from the requester. */
  predicate HitOnChannel(q: Query, u: User) {
    Matches(q, u, !q.hideServers || q.oper)
  }

  predicate HitGlobally(q: Query, u: User) {
    Matches(q, u, true)
  }

  /** The marks left, the replies, the budget left, and whether the scan broke off. */
  datatype Scan = Scan(marks: set<User>, out: seq<Reply>, max: nat, stopped: bool)

  /** One reply; the budget counts only while it is not used up. */
  ghost function Told(u: User, max: nat): seq<Reply> {
    if max == 1 then [Found(u), LimitExceeded] else [Found(u)]
  }

  function Less(max: nat): nat {
    if max > 0 then max - 1 else 0
  }

  /** who_common_channel as a function. */
  ghost function Common(q: Query, us: seq<User>, marks: set<User>, max: nat): Scan {
    if us == [] then Scan(marks, [], max, false)
    else
      var u := us[0];
      if !u.invisible || u in marks || !Eligible(q, u) then Common(q, us[1..], marks, max)
      else if !HitOnChannel(q, u) then Common(q, us[1..], marks + {u}, max)
      else if max == 1 then Scan(marks + {u}, Told(u, max), 0, true)
      else
        var s := Common(q, us[1..], marks + {u}, Less(max));
        s.(out := Told(u, max) + s.out)
  }

  /** The first phase of who_global: a channel that broke off does not keep the next from being scanned. */
  ghost function Channels(q: Query, cs: seq<seq<User>>, marks: set<User>, max: nat): Scan {
    if cs == [] then Scan(marks, [], max, false)
    else
      var s := Common(q, cs[0], marks, max);
      var t := Channels(q, cs[1..], s.marks, s.max);
      t.(out := s.out + t.out)
  }

  /** The second phase. */
  ghost function Everyone(q: Query, us: seq<User>, marks: set<User>, max: nat): Scan {
    if us == [] then Scan(marks, [], max, false)
    else
      var u := us[0];
      if !u.isClient then Everyone(q, us[1..], marks, max)
      else if u.invisible then Everyone(q, us[1..], marks - {u}, max)
      else if !Eligible(q, u) || !HitGlobally(q, u) then Everyone(q, us[1..], marks, max)
      else if max == 1 then Scan(marks, Told(u, max), 0, true)
      else
        var s := Everyone(q, us[1..], marks, Less(max));
        s.(out := Told(u, max) + s.out)
  }

  ghost function Global(q: Query, cs: seq<seq<User>>, us: seq<User>, marks: set<User>): Scan {
    var s := Channels(q, cs, marks, MAXREPLIES);
    var t := Everyone(q, us, s.marks, s.max);
    t.(out := s.out + t.out)
  }

  // ---------------------------------------------------------------------------------------
  // The command
  // ---------------------------------------------------------------------------------------

  ghost function Marked(all: set<User>): set<User>
    reads all
  {
    set u | u in all && u.mark
  }

  ghost predicate Among(us: seq<User>, all: set<User>) {
    forall i | 0 <= i < |us| :: us[i] in all
  }

  class WhoCommand {
    var lastUsed: int
    var out: seq<Reply>

    /** The budget after a reply, and the notice when it has run out. */
    method Tell(u: User, max: nat) returns (left: nat, stop: bool)
      modifies this`out
      ensures out == old(out) + Told(u, max) && left == Less(max) && stop == (max == 1)
    {
      out := out + [Found(u)];
      left, stop := max, false;
      if left > 0 {
        left := left - 1;
        if left == 0 {
          out := out + [LimitExceeded];
          stop := true;
        }
      }
    }

    /** who_common_channel. */
    method CommonChannel(q: Query, us: seq<User>, max0: nat, ghost all: set<User>) returns (max: nat)
      requires Among(us, all)
      modifies this`out, all
      ensures var s := Common(q, us, old(Marked(all)), max0);
              Marked(all) == s.marks && out == old(out) + s.out && max == s.max
    {
      max := max0;
      ghost var goal := Common(q, us, Marked(all), max0);
      var i := 0;
      assert us[0..] == us;
      while i < |us|
        invariant i <= |us|
        invariant var s := Common(q, us[i..], Marked(all), max);
                  goal.marks == s.marks && old(out) + goal.out == out + s.out && goal.max == s.max
      {
        var u := us[i];
        assert us[i..][0] == u && us[i..][1..] == us[i + 1..];
        i := i + 1;
        if u.invisible && !u.mark && Eligible(q, u) {
          MarkOne(u, all);
          if HitOnChannel(q, u) {
            ghost var s := Common(q, us[i..], Marked(all), Less(max));
            Assoc(out, Told(u, max), s.out);
            var stop;
            max, stop := Tell(u, max);
            if stop {
              return;
            }
          }
        }
      }
    }

    static method MarkOne(u: User, ghost all: set<User>)
      requires u in all
      modifies u
      ensures Marked(all) == old(Marked(all)) + {u}
    {
      u.mark := true;
    }

    static method UnmarkOne(u: User, ghost all: set<User>)
      requires u in all
      modifies u
      ensures Marked(all) == old(Marked(all)) - {u}
    {
      u.mark := false;
    }

    /** The second loop of who_global. */
    method AllClients(q: Query, us: seq<User>, max0: nat, ghost all: set<User>)
      requires Among(us, all)
      modifies this`out, all
      ensures var s := Everyone(q, us, old(Marked(all)), max0); Marked(all) == s.marks && out == old(out) + s.out
    {
      var max := max0;
      ghost var goal := Everyone(q, us, Marked(all), max0);
      var i := 0;
      assert us[0..] == us;
      while i < |us|
        invariant i <= |us|
        invariant var s := Everyone(q, us[i..], Marked(all), max);
                  goal.marks == s.marks && old(out) + goal.out == out + s.out
      {
        var u := us[i];
        assert us[i..][0] == u && us[i..][1..] == us[i + 1..];
        i := i + 1;
        if u.isClient {
          if u.invisible {
            UnmarkOne(u, all);
          } else if Eligible(q, u) && HitGlobally(q, u) {
            ghost var s := Everyone(q, us[i..], Marked(all), Less(max));
            Assoc(out, Told(u, max), s.out);
            var stop;
            max, stop := Tell(u, max);
            if stop {
              return;
            }
          }
        }
      }
    }

    /** who_global; a user who is not an operator is turned away when the command was used just before. */
    method WhoGlobal(q: Query, cs: seq<seq<User>>, us: seq<User>, now: int, pace: int, ghost all: set<User>)
      requires Among(us, all) && forall i | 0 <= i < |cs| :: Among(cs[i], all)
      modifies this, all
      ensures if !q.oper && old(lastUsed) + pace > now
              then Marked(all) == old(Marked(all)) && out == old(out) + [TooBusy] && lastUsed == old(lastUsed)
              else Marked(all) == Global(q, cs, us, old(Marked(all))).marks &&
                   out == old(out) + Global(q, cs, us, old(Marked(all))).out &&
                   lastUsed == if q.oper then old(lastUsed) else now
    {
      if !q.oper {
        if lastUsed + pace > now {
          out := out + [TooBusy];
          return;
        }
        lastUsed := now;
      }
      ghost var first := Channels(q, cs, Marked(all), MAXREPLIES);
      var max := AllChannels(q, cs, all);
      Assoc(old(out), first.out, Everyone(q, us, first.marks, first.max).out);
      AllClients(q, us, max, all);
    }

    /** The first loop of who_global. */
    method AllChannels(q: Query, cs: seq<seq<User>>, ghost all: set<User>) returns (max: nat)
      requires forall i | 0 <= i < |cs| :: Among(cs[i], all)
      modifies this`out, all
      ensures var s := Channels(q, cs, old(Marked(all)), MAXREPLIES);
              Marked(all) == s.marks && out == old(out) + s.out && max == s.max
    {
      max := MAXREPLIES;
      ghost var goal := Channels(q, cs, Marked(all), max);
      var i := 0;
      assert cs[0..] == cs;
      while i < |cs|
        invariant i <= |cs|
        invariant var s := Channels(q, cs[i..], Marked(all), max);
                  goal.marks == s.marks && old(out) + goal.out == out + s.out && goal.max == s.max
      {
        assert cs[i..][0] == cs[i] && cs[i..][1..] == cs[i + 1..];
        ghost var s := Common(q, cs[i], Marked(all), max);
        Assoc(out, s.out, Channels(q, cs[i + 1..], s.marks, s.max).out);
        max := CommonChannel(q, cs[i], max, all);
        i := i + 1;
      }
    }
  }

  // ---------------------------------------------------------------------------------------
  // Below the limit
  // ---------------------------------------------------------------------------------------

  ghost function Replies(us: set<User>): set<Reply> {
    set u | u in us :: Found(u)
  }

  /** The invisible clients among us that may be listed at all: those that the first phase marks. */
  ghost function Candidates(q: Query, us: seq<User>): set<User> {
    set u | u in us && u.invisible && Eligible(q, u)
  }

  ghost function OnChannel(q: Query, us: set<User>): set<User> {
    set u | u in us && HitOnChannel(q, u)
  }

  ghost function Openly(q: Query, us: seq<User>): set<User> {
    set u | u in us && u.isClient && !u.invisible && Eligible(q, u) && HitGlobally(q, u)
  }

  lemma OneMore(us: set<User>, u: User)
    requires u !in us
    ensures multiset(Replies(us + {u})) == multiset{Found(u)} + multiset(Replies(us))
  {
    assert Replies(us + {u}) == Replies(us) + {Found(u)};
  }

  /** A channel scanned below the limit: its candidates are marked, each new one that matches is listed once. */
  ghost predicate ScannedChannel(q: Query, us: seq<User>, marks: set<User>, hits: set<User>, s: Scan) {
    && s.marks == marks + Candidates(q, us) && !s.stopped && |hits - s.marks| < s.max
    && multiset(s.out) == multiset(Replies(OnChannel(q, Candidates(q, us) - marks)))
  }

  lemma {:induction false} CommonBelow(q: Query, us: seq<User>, marks: set<User>, max: nat, hits: set<User>)
    requires OnChannel(q, Candidates(q, us)) <= hits && |hits - marks| < max
    ensures ScannedChannel(q, us, marks, hits, Common(q, us, marks, max))
  {
    if us == [] {
      assert Candidates(q, us) == {};
      assert Replies(OnChannel(q, {})) == {};
    } else {
      var u, t := us[0], us[1..];
      CandidatesCons(q, us);
      if !u.invisible || u in marks || !Eligible(q, u) {
        CommonBelow(q, t, marks, max, hits);
        ScannedSkip(q, us, marks, hits, Common(q, t, marks, max));
      } else if HitOnChannel(q, u) {
        FewerHits(q, us, marks, hits);
        CommonBelow(q, t, marks + {u}, max - 1, hits);
        ScannedHit(q, us, marks, hits, Common(q, t, marks + {u}, max - 1));
      } else {
        Smaller(hits - (marks + {u}), hits - marks);
        CommonBelow(q, t, marks + {u}, max, hits);
        ScannedMiss(q, us, marks, hits, Common(q, t, marks + {u}, max));
      }
    }
  }

  lemma FewerHits(q: Query, us: seq<User>, marks: set<User>, hits: set<User>)
    requires us != [] && us[0] in OnChannel(q, Candidates(q, us)) && OnChannel(q, Candidates(q, us)) <= hits
    requires us[0] !in marks
    ensures |hits - (marks + {us[0]})| == |hits - marks| - 1
  {
    assert hits - (marks + {us[0]}) == (hits - marks) - {us[0]};
  }

  lemma ScannedSkip(q: Query, us: seq<User>, marks: set<User>, hits: set<User>, s: Scan)
    requires us != [] && (!us[0].invisible || us[0] in marks || !Eligible(q, us[0]))
    requires ScannedChannel(q, us[1..], marks, hits, s)
    ensures ScannedChannel(q, us, marks, hits, s)
  {
    CandidatesCons(q, us);
    assert Candidates(q, us) - marks == Candidates(q, us[1..]) - marks;
  }

  lemma ScannedMiss(q: Query, us: seq<User>, marks: set<User>, hits: set<User>, s: Scan)
    requires us != [] && us[0].invisible && Eligible(q, us[0]) && !HitOnChannel(q, us[0])
    requires ScannedChannel(q, us[1..], marks + {us[0]}, hits, s)
    ensures ScannedChannel(q, us, marks, hits, s)
  {
    CandidatesCons(q, us);
    assert OnChannel(q, Candidates(q, us) - marks) == OnChannel(q, Candidates(q, us[1..]) - (marks + {us[0]}));
  }

  lemma CandidatesCons(q: Query, us: seq<User>)
    requires us != []
    ensures Candidates(q, us) == Candidates(q, us[1..]) + if us[0].invisible && Eligible(q, us[0]) then {us[0]} else {}
    ensures OnChannel(q, Candidates(q, us[1..])) <= OnChannel(q, Candidates(q, us))
  {
    assert us == [us[0]] + us[1..];
  }

  lemma ScannedHit(q: Query, us: seq<User>, marks: set<User>, hits: set<User>, s: Scan)
    requires us != [] && us[0].invisible && Eligible(q, us[0]) && HitOnChannel(q, us[0]) && us[0] !in marks
    requires ScannedChannel(q, us[1..], marks + {us[0]}, hits, s)
    ensures ScannedChannel(q, us, marks, hits, s.(out := [Found(us[0])] + s.out))
  {
    var u := us[0];
    CandidatesCons(q, us);
    OneMore(OnChannel(q, Candidates(q, us[1..]) - (marks + {u})), u);
    assert OnChannel(q, Candidates(q, us) - marks) == OnChannel(q, Candidates(q, us[1..]) - (marks + {u})) + {u};
  }

  lemma Smaller(a: set<User>, b: set<User>)
    requires a <= b
    ensures |a| <= |b|
  {
    if a != b {
      var x :| x in b && x !in a;
      Smaller(a, b - {x});
    }
  }

  lemma {:induction false} RepliesUnion(a: set<User>, b: set<User>)
    requires a !! b
    ensures multiset(Replies(a + b)) == multiset(Replies(a)) + multiset(Replies(b))
  {
    if a == {} {
      assert Replies(a) == {} && a + b == b;
    } else {
      var u :| u in a;
      RepliesUnion(a - {u}, b);
      OneMore(a - {u}, u);
      OneMore(a - {u} + b, u);
      assert a - {u} + {u} == a && a - {u} + b + {u} == a + b;
    }
  }

  ghost function AllCandidates(q: Query, cs: seq<seq<User>>): set<User> {
    if cs == [] then {} else Candidates(q, cs[0]) + AllCandidates(q, cs[1..])
  }

  lemma {:induction false} ChannelsBelow(q: Query, cs: seq<seq<User>>, marks: set<User>, max: nat, hits: set<User>)
    requires OnChannel(q, AllCandidates(q, cs)) <= hits && |hits - marks| < max
    ensures var s := Channels(q, cs, marks, max);
            && s.marks == marks + AllCandidates(q, cs) && |hits - s.marks| < s.max
            && multiset(s.out) == multiset(Replies(OnChannel(q, AllCandidates(q, cs) - marks)))
  {
    if cs == [] {
      assert Replies(OnChannel(q, {})) == {};
    } else {
      var c, r := Candidates(q, cs[0]), AllCandidates(q, cs[1..]);
      assert OnChannel(q, c) <= hits && OnChannel(q, r) <= hits;
      CommonBelow(q, cs[0], marks, max, hits);
      var s := Common(q, cs[0], marks, max);
      ChannelsBelow(q, cs[1..], s.marks, s.max, hits);
      RepliesUnion(OnChannel(q, c - marks), OnChannel(q, r - s.marks));
      assert OnChannel(q, (c + r) - marks) == OnChannel(q, c - marks) + OnChannel(q, r - s.marks);
    }
  }

  ghost function Invisible(us: seq<User>): set<User> {
    set u | u in us && u.isClient && u.invisible
  }

  lemma OpenlyCons(q: Query, us: seq<User>)
    requires Distinct(us) && us != []
    ensures Distinct(us[1..]) && us[0] !in Openly(q, us[1..])
    ensures Openly(q, us) == if us[0] in Openly(q, us) then Openly(q, us[1..]) + {us[0]} else Openly(q, us[1..])
    ensures |Openly(q, us)| == |Openly(q, us[1..])| + if us[0] in Openly(q, us) then 1 else 0
    ensures Invisible(us) == Invisible(us[1..]) + if us[0].isClient && us[0].invisible then {us[0]} else {}
  {
    assert us == [us[0]] + us[1..];
  }

  ghost predicate ScannedAll(q: Query, us: seq<User>, marks: set<User>, s: Scan) {
    !s.stopped && s.marks == marks - Invisible(us) && multiset(s.out) == multiset(Replies(Openly(q, us)))
  }

  lemma {:induction false} EveryoneBelow(q: Query, us: seq<User>, marks: set<User>, max: nat)
    requires Distinct(us) && |Openly(q, us)| < max
    ensures ScannedAll(q, us, marks, Everyone(q, us, marks, max))
  {
    if us == [] {
      assert Replies(Openly(q, us)) == {};
    } else {
      var u, t := us[0], us[1..];
      OpenlyCons(q, us);
      var m := if u in Openly(q, us) then max - 1 else max;
      var marks' := if u.isClient && u.invisible then marks - {u} else marks;
      EveryoneBelow(q, t, marks', m);
      AllScanned(q, us, marks, Everyone(q, t, marks', m));
    }
  }

  lemma AllScanned(q: Query, us: seq<User>, marks: set<User>, s: Scan)
    requires Distinct(us) && us != []
    requires ScannedAll(q, us[1..], if us[0].isClient && us[0].invisible then marks - {us[0]} else marks, s)
    ensures ScannedAll(q, us, marks, s.(out := (if us[0] in Openly(q, us) then [Found(us[0])] else []) + s.out))
  {
    OpenlyCons(q, us);
    OneMore(Openly(q, us[1..]), us[0]);
  }

  /** What a requester should see: visible clients that match, and invisible ones on common channels. */
  ghost function Visible(q: Query, cs: seq<seq<User>>, us: seq<User>): set<User> {
    OnChannel(q, AllCandidates(q, cs)) + Openly(q, us)
  }

  /** The members of every channel are known clients. */
  ghost predicate Known(cs: seq<seq<User>>, us: seq<User>) {
    forall i, j | 0 <= i < |cs| && 0 <= j < |cs[i]| :: cs[i][j] in us && cs[i][j].isClient
  }

  lemma {:induction false} CandidatesKnown(q: Query, cs: seq<seq<User>>, us: seq<User>)
    requires Known(cs, us)
    ensures AllCandidates(q, cs) <= Invisible(us)
  {
    if cs != [] {
      assert forall j | 0 <= j < |cs[0]| :: cs[0][j] in us && cs[0][j].isClient;
      assert forall i | 0 <= i < |cs[1..]| :: cs[1..][i] == cs[i + 1];
      CandidatesKnown(q, cs[1..], us);
    }
  }

  /** Below the limit everyone a requester should see is listed exactly once, and no mark is left. */
  lemma EachOnce(q: Query, cs: seq<seq<User>>, us: seq<User>)
    requires Distinct(us) && Known(cs, us) && |Visible(q, cs, us)| < MAXREPLIES
    ensures multiset(Global(q, cs, us, {}).out) == multiset(Replies(Visible(q, cs, us)))
    ensures Global(q, cs, us, {}).marks == {}
  {
    var hits, open := Visible(q, cs, us), Openly(q, us);
    assert hits - {} == hits;
    ChannelsBelow(q, cs, {}, MAXREPLIES, hits);
    var s := Channels(q, cs, {}, MAXREPLIES);
    CandidatesKnown(q, cs, us);
    assert open <= hits - s.marks;
    Smaller(open, hits - s.marks);
    EveryoneBelow(q, us, s.marks, s.max);
    assert AllCandidates(q, cs) - {} == AllCandidates(q, cs);
    RepliesUnion(OnChannel(q, AllCandidates(q, cs)), open);
  }

  // ---------------------------------------------------------------------------------------
  // At the limit
  // ---------------------------------------------------------------------------------------

  /** The number of clients listed. */
  ghost function Listed(out: seq<Reply>): nat {
    if out == [] then 0 else (if out[0].Found? then 1 else 0) + Listed(out[1..])
  }

  lemma {:induction false} ListedConcat(a: seq<Reply>, b: seq<Reply>)
    ensures Listed(a + b) == Listed(a) + Listed(b)
  {
    if a == [] {
      assert a + b == b;
    } else {
      assert (a + b)[1..] == a[1..] + b;
      ListedConcat(a[1..], b);
    }
  }

  lemma ListedTold(u: User, max: nat, rest: seq<Reply>)
    ensures Listed(Told(u, max) + rest) == 1 + Listed(rest)
  {
    ListedConcat(Told(u, max), rest);
    assert [Found(u), LimitExceeded][1..] == [LimitExceeded] && [LimitExceeded][1..] == [] && [Found(u)][1..] == [];
  }

  /** The clients of a channel that are listed if nothing cuts the scan short. */
  ghost function News(q: Query, us: seq<User>, marks: set<User>): set<User> {
    OnChannel(q, Candidates(q, us)) - marks
  }

  lemma NewsCons(q: Query, us: seq<User>, marks: set<User>)
    requires us != []
    ensures var u, t := us[0], us[1..];
            if !u.invisible || u in marks || !Eligible(q, u) then News(q, us, marks) == News(q, t, marks)
            else if !HitOnChannel(q, u) then News(q, us, marks) == News(q, t, marks + {u})
            else News(q, us, marks) == News(q, t, marks + {u}) + {u} &&
                 |News(q, us, marks)| == |News(q, t, marks + {u})| + 1
  {
    CandidatesCons(q, us);
    var u, t := us[0], us[1..];
    assert News(q, us, marks) == if u in News(q, us, marks) then News(q, t, marks + {u}) + {u} else News(q, us, marks);
    if u.invisible && u !in marks && Eligible(q, u) && !HitOnChannel(q, u) {
      assert News(q, us, marks) == News(q, t, marks + {u});
    }
    if !u.invisible || u in marks || !Eligible(q, u) {
      assert News(q, us, marks) == News(q, t, marks);
    }
  }

  /** How many members of a channel are looked at. */
  ghost function Seen(q: Query, us: seq<User>, marks: set<User>, max: nat): (r: nat)
    ensures r <= |us|
  {
    if us == [] then 0
    else
      var u := us[0];
      if !u.invisible || u in marks || !Eligible(q, u) then 1 + Seen(q, us[1..], marks, max)
      else if !HitOnChannel(q, u) then 1 + Seen(q, us[1..], marks + {u}, max)
      else if max == 1 then 1
      else 1 + Seen(q, us[1..], marks + {u}, Less(max))
  }

  /** What the scan of a channel comes to, in terms of the members looked at. */
  ghost predicate Scanned(q: Query, seen: seq<User>, marks: set<User>, max: nat, s: Scan) {
    && s.marks == marks + Candidates(q, seen) && Listed(s.out) == |News(q, seen, marks)|
    && s.max == (if max == 0 then 0 else max - |News(q, seen, marks)|)
  }

  lemma ScannedNone(q: Query, marks: set<User>, max: nat, stopped: bool)
    ensures Scanned(q, [], marks, max, Scan(marks, [], max, stopped))
  {
    assert Candidates(q, []) == {} && News(q, [], marks) == {};
  }

  /** One member more in front: passed over, only marked, or listed. */
  lemma ScannedPast(q: Query, seen: seq<User>, marks: set<User>, max: nat, s: Scan)
    requires seen != [] && (!seen[0].invisible || seen[0] in marks || !Eligible(q, seen[0]))
    requires Scanned(q, seen[1..], marks, max, s)
    ensures Scanned(q, seen, marks, max, s)
  {
    CandidatesCons(q, seen);
    NewsCons(q, seen, marks);
  }

  lemma ScannedMarked(q: Query, seen: seq<User>, marks: set<User>, max: nat, s: Scan)
    requires seen != [] && seen[0].invisible && Eligible(q, seen[0]) && !HitOnChannel(q, seen[0])
    requires seen[0] !in marks && Scanned(q, seen[1..], marks + {seen[0]}, max, s)
    ensures Scanned(q, seen, marks, max, s)
  {
    CandidatesCons(q, seen);
    NewsCons(q, seen, marks);
  }

  lemma ScannedListed(q: Query, seen: seq<User>, marks: set<User>, max: nat, s: Scan)
    requires seen != [] && seen[0].invisible && Eligible(q, seen[0]) && HitOnChannel(q, seen[0]) && seen[0] !in marks
    requires Scanned(q, seen[1..], marks + {seen[0]}, Less(max), s)
    requires max == 1 ==> News(q, seen[1..], marks + {seen[0]}) == {}
    ensures Scanned(q, seen, marks, max, s.(out := Told(seen[0], max) + s.out))
  {
    CandidatesCons(q, seen);
    NewsCons(q, seen, marks);
    ListedTold(seen[0], max, s.out);
  }

  /** The scan of a channel is accounted for by the members looked at; all of them unless the limit is reached. */
  ghost predicate Accounted(q: Query, us: seq<User>, marks: set<User>, max: nat) {
    && Scanned(q, us[..Seen(q, us, marks, max)], marks, max, Common(q, us, marks, max))
    && (Seen(q, us, marks, max) < |us| ==> max > 0 && Common(q, us, marks, max).max == 0)
  }

  lemma AccountedPast(q: Query, us: seq<User>, marks: set<User>, max: nat)
    requires us != [] && (!us[0].invisible || us[0] in marks || !Eligible(q, us[0]))
    requires Accounted(q, us[1..], marks, max)
    ensures Accounted(q, us, marks, max)
  {
    var seen := us[..Seen(q, us, marks, max)];
    assert seen[0] == us[0] && seen[1..] == us[1..][..|seen| - 1];
    ScannedPast(q, seen, marks, max, Common(q, us[1..], marks, max));
  }

  lemma AccountedMarked(q: Query, us: seq<User>, marks: set<User>, max: nat)
    requires us != [] && us[0].invisible && Eligible(q, us[0]) && !HitOnChannel(q, us[0]) && us[0] !in marks
    requires Accounted(q, us[1..], marks + {us[0]}, max)
    ensures Accounted(q, us, marks, max)
  {
    var seen := us[..Seen(q, us, marks, max)];
    assert seen[0] == us[0] && seen[1..] == us[1..][..|seen| - 1];
    ScannedMarked(q, seen, marks, max, Common(q, us[1..], marks + {us[0]}, max));
  }

  lemma AccountedLast(q: Query, us: seq<User>, marks: set<User>, max: nat)
    requires us != [] && us[0].invisible && Eligible(q, us[0]) && HitOnChannel(q, us[0]) && us[0] !in marks
    requires max == 1
    ensures Accounted(q, us, marks, max)
  {
    var u := us[0];
    var seen := us[..Seen(q, us, marks, max)];
    assert seen == [u] && seen[1..] == [];
    ScannedNone(q, marks + {u}, 0, true);
    assert Candidates(q, []) == {};
    ScannedListed(q, seen, marks, max, Scan(marks + {u}, [], 0, true));
    assert Told(u, max) + [] == Told(u, max);
  }

  lemma AccountedListed(q: Query, us: seq<User>, marks: set<User>, max: nat)
    requires us != [] && us[0].invisible && Eligible(q, us[0]) && HitOnChannel(q, us[0]) && us[0] !in marks
    requires max != 1 && Accounted(q, us[1..], marks + {us[0]}, Less(max))
    ensures Accounted(q, us, marks, max)
  {
    var seen := us[..Seen(q, us, marks, max)];
    assert seen[0] == us[0] && seen[1..] == us[1..][..|seen| - 1];
    ScannedListed(q, seen, marks, max, Common(q, us[1..], marks + {us[0]}, Less(max)));
  }

  lemma {:induction false} CommonScans(q: Query, us: seq<User>, marks: set<User>, max: nat)
    ensures Accounted(q, us, marks, max)
  {
    if us == [] {
      ScannedNone(q, marks, max, false);
    } else if !us[0].invisible || us[0] in marks || !Eligible(q, us[0]) {
      CommonScans(q, us[1..], marks, max);
      AccountedPast(q, us, marks, max);
    } else if !HitOnChannel(q, us[0]) {
      CommonScans(q, us[1..], marks + {us[0]}, max);
      AccountedMarked(q, us, marks, max);
    } else if max == 1 {
      AccountedLast(q, us, marks, max);
    } else {
      CommonScans(q, us[1..], marks + {us[0]}, Less(max));
      AccountedListed(q, us, marks, max);
    }
  }

  /** How many clients the second phase looks at. */
  ghost function Reach(q: Query, us: seq<User>, max: nat): nat
    ensures Reach(q, us, max) <= |us|
  {
    if us == [] then 0
    else if us[0].isClient && !us[0].invisible && Eligible(q, us[0]) && HitGlobally(q, us[0]) then
      if max == 1 then 1 else 1 + Reach(q, us[1..], Less(max))
    else 1 + Reach(q, us[1..], max)
  }

  /** Once the budget is used up in the first phase, the second goes on to the end. */
  lemma {:induction false} NoFurtherLimit(q: Query, us: seq<User>, marks: set<User>, max: nat)
    requires max == 0
    ensures Reach(q, us, max) == |us| && !Everyone(q, us, marks, max).stopped
    ensures LimitExceeded !in Everyone(q, us, marks, max).out
  {
    if us != [] {
      var u, t := us[0], us[1..];
      NoFurtherLimit(q, t, if u.isClient && u.invisible then marks - {u} else marks, max);
    }
  }

  lemma {:induction false} MarksTaken(q: Query, us: seq<User>, marks: set<User>, max: nat)
    ensures Everyone(q, us, marks, max).marks == marks - Invisible(us[..Reach(q, us, max)])
  {
    if us != [] {
      var u, t := us[0], us[1..];
      var r := Reach(q, us, max);
      assert us[..r] == [u] + t[..r - 1];
      if u.isClient && !u.invisible && Eligible(q, u) && HitGlobally(q, u) {
        if max != 1 {
          MarksTaken(q, t, marks, Less(max));
        }
      } else {
        MarksTaken(q, t, if u.isClient && u.invisible then marks - {u} else marks, max);
      }
    }
  }

  /** The lemma about marks, in terms of where the second phase stops. */
  lemma MarksBehindReach(q: Query, cs: seq<seq<User>>, us: seq<User>)
    requires Distinct(us) && Known(cs, us)
    ensures var s := Channels(q, cs, {}, MAXREPLIES);
            Global(q, cs, us, {}).marks != {} <==>
            exists i :: Reach(q, us, s.max) <= i < |us| && us[i] in s.marks
  {
    var s := Channels(q, cs, {}, MAXREPLIES);
    var r := Reach(q, us, s.max);
    MarksTaken(q, us, s.marks, s.max);
    MarksKnown(q, cs, {}, MAXREPLIES);
    CandidatesKnown(q, cs, us);
    if i :| r <= i < |us| && us[i] in s.marks {
      assert us[i] !in us[..r];
      assert us[i] in Global(q, cs, us, {}).marks;
    } else {
      forall u | u in s.marks ensures u in Invisible(us[..r]) {
        assert u in Invisible(us);
        var i :| 0 <= i < |us| && us[i] == u;
        assert us[..r][i] == u;
      }
    }
  }

  lemma {:induction false} CommonMarks(q: Query, us: seq<User>, marks: set<User>, max: nat)
    ensures Common(q, us, marks, max).marks <= marks + Candidates(q, us)
  {
    if us != [] {
      var u, t := us[0], us[1..];
      assert us == [u] + t;
      CommonMarks(q, t, marks, max);
      CommonMarks(q, t, marks + {u}, max);
      CommonMarks(q, t, marks + {u}, Less(max));
    }
  }

  lemma {:induction false} MarksKnown(q: Query, cs: seq<seq<User>>, marks: set<User>, max: nat)
    ensures Channels(q, cs, marks, max).marks <= marks + AllCandidates(q, cs)
  {
    if cs != [] {
      CommonMarks(q, cs[0], marks, max);
      var s := Common(q, cs[0], marks, max);
      MarksKnown(q, cs[1..], s.marks, s.max);
    }
  }

  // ---------------------------------------------------------------------------------------
  // How many replies there are
  // ---------------------------------------------------------------------------------------

  ghost function AllNews(q: Query, cs: seq<seq<User>>, marks: set<User>): set<User> {
    OnChannel(q, AllCandidates(q, cs)) - marks
  }

  lemma AllNewsCons(q: Query, cs: seq<seq<User>>, marks: set<User>)
    requires cs != []
    ensures var n, r := News(q, cs[0], marks), AllNews(q, cs[1..], marks + Candidates(q, cs[0]));
            AllNews(q, cs, marks) == n + r && n !! r && |AllNews(q, cs, marks)| == |n| + |r|
  {
    var n, r := News(q, cs[0], marks), AllNews(q, cs[1..], marks + Candidates(q, cs[0]));
    assert AllNews(q, cs, marks) == n + r;
  }

  /** Without a limit, or once it has been reached, every channel is scanned to its end. */
  lemma {:induction false} ChannelsFree(q: Query, cs: seq<seq<User>>, marks: set<User>)
    ensures var s := Channels(q, cs, marks, 0);
            s.max == 0 && s.marks == marks + AllCandidates(q, cs) && Listed(s.out) == |AllNews(q, cs, marks)|
  {
    if cs == [] {
      assert AllNews(q, cs, marks) == {};
    } else {
      CommonWhole(q, cs[0], marks, 0);
      var s := Common(q, cs[0], marks, 0);
      ChannelsFree(q, cs[1..], s.marks);
      AllNewsCons(q, cs, marks);
      ListedConcat(s.out, Channels(q, cs[1..], s.marks, 0).out);
    }
  }

  /** A channel whose news stay below the limit is scanned to its end. */
  lemma CommonWhole(q: Query, us: seq<User>, marks: set<User>, max: nat)
    requires max == 0 || |News(q, us, marks)| < max
    ensures Scanned(q, us, marks, max, Common(q, us, marks, max))
  {
    CommonScans(q, us, marks, max);
    NewsOfPrefix(q, us, Seen(q, us, marks, max), marks);
    assert us[..|us|] == us;
  }

  lemma NewsOfPrefix(q: Query, us: seq<User>, r: nat, marks: set<User>)
    requires r <= |us|
    ensures News(q, us[..r], marks) <= News(q, us, marks) && |News(q, us[..r], marks)| <= |News(q, us, marks)|
  {
    Smaller(News(q, us[..r], marks), News(q, us, marks));
  }

  /** What the first phase leaves of the budget below the limit. */
  lemma {:induction false} ChannelsLeave(q: Query, cs: seq<seq<User>>, marks: set<User>, max: nat)
    requires |AllNews(q, cs, marks)| < max
    ensures var s := Channels(q, cs, marks, max);
            && s.max == max - |AllNews(q, cs, marks)| && s.marks == marks + AllCandidates(q, cs)
            && Listed(s.out) == |AllNews(q, cs, marks)|
  {
    if cs == [] {
      assert AllNews(q, cs, marks) == {};
    } else {
      AllNewsCons(q, cs, marks);
      CommonWhole(q, cs[0], marks, max);
      var s := Common(q, cs[0], marks, max);
      ChannelsLeave(q, cs[1..], s.marks, s.max);
      ListedConcat(s.out, Channels(q, cs[1..], s.marks, s.max).out);
    }
  }

  /** The clients listed by the first k channels and the first j members of the next. */
  ghost function HitsBy(q: Query, cs: seq<seq<User>>, k: nat, j: nat): set<User>
    requires k < |cs| && j <= |cs[k]|
  {
    OnChannel(q, AllCandidates(q, cs[..k]) + Candidates(q, cs[k][..j]))
  }

  /** The limit is reached at member j of channel k, and not in a channel before it. */
  ghost predicate ReachedAt(q: Query, cs: seq<seq<User>>, marks: set<User>, max: nat, k: nat, j: nat) {
    && k < |cs| && j <= |cs[k]|
    && |AllNews(q, cs[..k], marks)| < max && |HitsBy(q, cs, k, j) - marks| == max
  }

  /** The clients of later channels that have not been listed by then. */
  ghost function Late(q: Query, cs: seq<seq<User>>, marks: set<User>, k: nat, j: nat): set<User>
    requires k < |cs| && j <= |cs[k]|
  {
    AllNews(q, cs[k + 1..], marks) - HitsBy(q, cs, k, j)
  }

  lemma SomeChannel(q: Query, cs: seq<seq<User>>, marks: set<User>)
    ensures |AllNews(q, cs, marks)| > 0 ==> cs != []
  {
    if cs == [] {
      assert AllNews(q, cs, marks) == {};
    }
  }

  /** A channel with enough news uses up the budget. */
  lemma CommonReaches(q: Query, us: seq<User>, marks: set<User>, max: nat, j: nat)
    requires 0 < max <= |News(q, us, marks)| && j == Seen(q, us, marks, max)
    ensures var s := Common(q, us, marks, max);
            && s.max == 0 && s.marks == marks + Candidates(q, us[..j])
            && Listed(s.out) == |News(q, us[..j], marks)| == max
  {
    CommonScans(q, us, marks, max);
    assert us[..|us|] == us;
  }

  lemma FirstPlace(q: Query, cs: seq<seq<User>>, marks: set<User>, j: nat)
    requires cs != [] && j <= |cs[0]|
    ensures AllNews(q, cs[..0], marks) == {} && HitsBy(q, cs, 0, j) - marks == News(q, cs[0][..j], marks)
    ensures Late(q, cs, marks, 0, j) == AllNews(q, cs[1..], marks + Candidates(q, cs[0][..j]))
  {
    assert cs[..0] == [];
  }

  /** A first channel that reaches the limit: the later ones are scanned without one. */
  lemma LimitInFirst(q: Query, cs: seq<seq<User>>, marks: set<User>, max: nat) returns (j: nat)
    requires cs != [] && 0 < max <= |News(q, cs[0], marks)|
    ensures ReachedAt(q, cs, marks, max, 0, j)
    ensures var s := Channels(q, cs, marks, max); s.max == 0 && Listed(s.out) == max + |Late(q, cs, marks, 0, j)|
  {
    j := Seen(q, cs[0], marks, max);
    CommonReaches(q, cs[0], marks, max, j);
    FirstPlace(q, cs, marks, j);
    var s := Common(q, cs[0], marks, max);
    ChannelsFree(q, cs[1..], s.marks);
    ListedConcat(s.out, Channels(q, cs[1..], s.marks, 0).out);
  }

  lemma HitsByCons(q: Query, cs: seq<seq<User>>, k: nat, j: nat)
    requires 0 < k < |cs| && j <= |cs[k]|
    ensures HitsBy(q, cs, k, j) == OnChannel(q, Candidates(q, cs[0])) + HitsBy(q, cs[1..], k - 1, j)
    ensures AllCandidates(q, cs[..k]) == Candidates(q, cs[0]) + AllCandidates(q, cs[1..][..k - 1])
    ensures cs[k + 1..] == cs[1..][k..] && cs[..k] != [] && cs[..k][0] == cs[0] && cs[..k][1..] == cs[1..][..k - 1]
  {
    assert cs[..k] == [cs[0]] + cs[1..][..k - 1];
  }

  /** A first channel below the limit moves the place by one channel and changes nothing else. */
  lemma ReachedLater(q: Query, cs: seq<seq<User>>, marks: set<User>, max: nat, k: nat, j: nat)
    requires cs != [] && |News(q, cs[0], marks)| < max
    requires ReachedAt(q, cs[1..], marks + Candidates(q, cs[0]), max - |News(q, cs[0], marks)|, k, j)
    ensures ReachedAt(q, cs, marks, max, k + 1, j)
    ensures Late(q, cs, marks, k + 1, j) == Late(q, cs[1..], marks + Candidates(q, cs[0]), k, j)
  {
    var c, n := Candidates(q, cs[0]), News(q, cs[0], marks);
    HitsByCons(q, cs, k + 1, j);
    AllNewsCons(q, cs[..k + 1], marks);
    var hits := HitsBy(q, cs[1..], k, j) - (marks + c);
    assert HitsBy(q, cs, k + 1, j) - marks == n + hits;
    assert n !! hits;
  }

  /** Where the limit is reached in the first phase, and how many clients it lists in all. */
  lemma {:induction false} ChannelsAtLimit(q: Query, cs: seq<seq<User>>, marks: set<User>, max: nat)
      returns (k: nat, j: nat)
    requires 0 < max <= |AllNews(q, cs, marks)|
    ensures ReachedAt(q, cs, marks, max, k, j)
    ensures var s := Channels(q, cs, marks, max); s.max == 0 && Listed(s.out) == max + |Late(q, cs, marks, k, j)|
  {
    SomeChannel(q, cs, marks);
    AllNewsCons(q, cs, marks);
    var n := News(q, cs[0], marks);
    if |n| >= max {
      k := 0;
      j := LimitInFirst(q, cs, marks, max);
    } else {
      CommonWhole(q, cs[0], marks, max);
      var s := Common(q, cs[0], marks, max);
      k, j := ChannelsAtLimit(q, cs[1..], s.marks, s.max);
      ReachedLater(q, cs, marks, max, k, j);
      ListedConcat(s.out, Channels(q, cs[1..], s.marks, s.max).out);
      k := k + 1;
    }
  }

  /** The first phase uses up the budget exactly when that many clients on channels match. */
  lemma BudgetUsedUp(q: Query, cs: seq<seq<User>>)
    ensures Channels(q, cs, {}, MAXREPLIES).max == 0 <==> |OnChannel(q, AllCandidates(q, cs))| >= MAXREPLIES
  {
    assert AllNews(q, cs, {}) == OnChannel(q, AllCandidates(q, cs));
    if |AllNews(q, cs, {})| < MAXREPLIES {
      ChannelsLeave(q, cs, {}, MAXREPLIES);
    } else {
      var k, j := ChannelsAtLimit(q, cs, {}, MAXREPLIES);
    }
  }

  /** What the second phase lists: everyone, or as many as the budget allows if there is one. */
  lemma {:induction false} EveryoneListed(q: Query, us: seq<User>, marks: set<User>, max: nat)
    requires Distinct(us)
    ensures Listed(Everyone(q, us, marks, max).out) ==
            if max == 0 || |Openly(q, us)| < max then |Openly(q, us)| else max
  {
    if us == [] {
      assert Openly(q, us) == {};
    } else {
      var u, t := us[0], us[1..];
      OpenlyCons(q, us);
      if u in Openly(q, us) {
        if max == 1 {
          ListedTold(u, max, []);
          assert Told(u, max) + [] == Told(u, max);
        } else {
          EveryoneListed(q, t, marks, Less(max));
          ListedTold(u, max, Everyone(q, t, marks, Less(max)).out);
        }
      } else {
        EveryoneListed(q, t, if u.isClient && u.invisible then marks - {u} else marks, max);
      }
    }
  }

  /** The number of replies when the first phase leaves some of the budget. */
  lemma RepliesBelow(q: Query, cs: seq<seq<User>>, us: seq<User>)
    requires Distinct(us) && |OnChannel(q, AllCandidates(q, cs))| < MAXREPLIES
    ensures var n := |OnChannel(q, AllCandidates(q, cs))| + |Openly(q, us)|;
            Listed(Global(q, cs, us, {}).out) == if n < MAXREPLIES then n else MAXREPLIES
  {
    assert AllNews(q, cs, {}) == OnChannel(q, AllCandidates(q, cs));
    var s := Channels(q, cs, {}, MAXREPLIES);
    ChannelsLeave(q, cs, {}, MAXREPLIES);
    EveryoneListed(q, us, s.marks, s.max);
    ListedConcat(s.out, Everyone(q, us, s.marks, s.max).out);
  }

  /** The number of replies when it does not. */
  lemma RepliesBeyond(q: Query, cs: seq<seq<User>>, us: seq<User>) returns (k: nat, j: nat)
    requires Distinct(us) && |OnChannel(q, AllCandidates(q, cs))| >= MAXREPLIES
    ensures ReachedAt(q, cs, {}, MAXREPLIES, k, j)
    ensures Listed(Global(q, cs, us, {}).out) == MAXREPLIES + |Late(q, cs, {}, k, j)| + |Openly(q, us)|
  {
    assert AllNews(q, cs, {}) == OnChannel(q, AllCandidates(q, cs));
    var s := Channels(q, cs, {}, MAXREPLIES);
    k, j := ChannelsAtLimit(q, cs, {}, MAXREPLIES);
    EveryoneListed(q, us, s.marks, s.max);
    ListedConcat(s.out, Everyone(q, us, s.marks, s.max).out);
  }

  lemma {:induction false} ChannelsPrefix(q: Query, cs: seq<seq<User>>, a: nat, b: nat)
    requires a <= b <= |cs|
    ensures AllCandidates(q, cs[..a]) <= AllCandidates(q, cs[..b])
  {
    if a > 0 {
      assert cs[..a] == [cs[0]] + cs[1..][..a - 1] && cs[..b] == [cs[0]] + cs[1..][..b - 1];
      ChannelsPrefix(q, cs[1..], a - 1, b - 1);
    }
  }

  lemma {:induction false} LastChannel(q: Query, cs: seq<seq<User>>, k: nat)
    requires k < |cs|
    ensures AllCandidates(q, cs[..k + 1]) == AllCandidates(q, cs[..k]) + Candidates(q, cs[k])
  {
    if k == 0 {
      assert cs[..1] == [cs[0]] && cs[..0] == [] && cs[..1][1..] == [];
    } else {
      assert cs[..k] == [cs[0]] + cs[1..][..k - 1] && cs[..k + 1] == [cs[0]] + cs[1..][..k];
      LastChannel(q, cs[1..], k - 1);
    }
  }

  /** The limit is reached in one channel only, and the clients listed by then are the same wherever in it. */
  lemma ReachedOnce(q: Query, cs: seq<seq<User>>, max: nat, k: nat, j: nat, k': nat, j': nat)
    requires ReachedAt(q, cs, {}, max, k, j) && ReachedAt(q, cs, {}, max, k', j')
    ensures k == k' && HitsBy(q, cs, k, j) == HitsBy(q, cs, k', j')
  {
    if k < k' {
      NotBefore(q, cs, max, k, j, k');
    } else if k' < k {
      NotBefore(q, cs, max, k', j', k);
    } else if j <= j' {
      SameHits(q, cs, k, j, j');
    } else {
      SameHits(q, cs, k, j', j);
    }
  }

  lemma NotBefore(q: Query, cs: seq<seq<User>>, max: nat, k: nat, j: nat, k': nat)
    requires ReachedAt(q, cs, {}, max, k, j) && k < k' <= |cs|
    ensures |AllNews(q, cs[..k'], {})| >= max
  {
    LastChannel(q, cs, k);
    ChannelsPrefix(q, cs, k + 1, k');
    assert Candidates(q, cs[k][..j]) <= Candidates(q, cs[k]);
    Smaller(HitsBy(q, cs, k, j) - {}, AllNews(q, cs[..k'], {}));
  }

  lemma SameHits(q: Query, cs: seq<seq<User>>, k: nat, j: nat, j': nat)
    requires k < |cs| && j <= j' <= |cs[k]| && |HitsBy(q, cs, k, j) - {}| == |HitsBy(q, cs, k, j') - {}|
    ensures HitsBy(q, cs, k, j) == HitsBy(q, cs, k, j')
  {
    var a, b := HitsBy(q, cs, k, j), HitsBy(q, cs, k, j');
    assert a - {} == a && b - {} == b;
    assert forall u | u in cs[k][..j] :: u in cs[k][..j'];
    assert a <= b && b == a + (b - a);
  }

  /**
   A WHO gets more replies than the limit exactly when the limit is reached on the channels, and after
   that there is a visible client that matches, or a later channel has a match not listed by then.
   */
  lemma TooManyExactly(q: Query, cs: seq<seq<User>>, us: seq<User>)
    requires Distinct(us)
    ensures Listed(Global(q, cs, us, {}).out) > MAXREPLIES <==>
            && |OnChannel(q, AllCandidates(q, cs))| >= MAXREPLIES
            && (Openly(q, us) != {} ||
                exists k, j :: ReachedAt(q, cs, {}, MAXREPLIES, k, j) && Late(q, cs, {}, k, j) != {})
  {
    if |OnChannel(q, AllCandidates(q, cs))| < MAXREPLIES {
      RepliesBelow(q, cs, us);
    } else {
      var k, j := RepliesBeyond(q, cs, us);
      assert |Late(q, cs, {}, k, j)| + |Openly(q, us)| > 0 <==> Late(q, cs, {}, k, j) != {} || Openly(q, us) != {};
      if k': nat, j': nat :| ReachedAt(q, cs, {}, MAXREPLIES, k', j') && Late(q, cs, {}, k', j') != {} {
        ReachedOnce(q, cs, MAXREPLIES, k, j, k', j');
      }
    }
  }

  // ---------------------------------------------------------------------------------------
  // Which marks are left
  // ---------------------------------------------------------------------------------------

  lemma OpenlyPrefix(q: Query, us: seq<User>, i: nat)
    requires Distinct(us) && 0 < i <= |us|
    ensures Distinct(us[1..])
    ensures |Openly(q, us[..i])| == |Openly(q, us[1..][..i - 1])| +
            if us[0].isClient && !us[0].invisible && Eligible(q, us[0]) && HitGlobally(q, us[0]) then 1 else 0
  {
    assert us[..i][0] == us[0] && us[..i][1..] == us[1..][..i - 1];
    OpenlyCons(q, us[..i]);
    OpenlyCons(q, us);
  }

  /** The second phase has stopped before client i exactly when enough visible clients before it match. */
  lemma {:induction false} ReachExactly(q: Query, us: seq<User>, max: nat, i: nat)
    requires Distinct(us) && max > 0 && i < |us|
    ensures Reach(q, us, max) <= i <==> |Openly(q, us[..i])| >= max
  {
    if i == 0 {
      assert Openly(q, us[..0]) == {};
    } else {
      var u, t := us[0], us[1..];
      OpenlyPrefix(q, us, i);
      if u.isClient && !u.invisible && Eligible(q, u) && HitGlobally(q, u) {
        if max > 1 {
          ReachExactly(q, t, max - 1, i - 1);
        }
      } else {
        ReachExactly(q, t, max, i - 1);
      }
    }
  }

  /**
   Marks are left behind exactly when fewer clients on channels match than the limit, and a client
   that the first phase marks comes after enough visible ones that match to use up the rest.
   */
  lemma MarksLeftExactly(q: Query, cs: seq<seq<User>>, us: seq<User>)
    requires Distinct(us) && Known(cs, us)
    ensures var h := |OnChannel(q, AllCandidates(q, cs))|;
            Global(q, cs, us, {}).marks != {} <==>
            h < MAXREPLIES &&
            exists i :: 0 <= i < |us| && us[i] in AllCandidates(q, cs) && |Openly(q, us[..i])| >= MAXREPLIES - h
  {
    MarksBehindReach(q, cs, us);
    BudgetLeft(q, cs);
    var s := Channels(q, cs, {}, MAXREPLIES);
    if s.max == 0 {
      NoFurtherLimit(q, us, s.marks, s.max);
    } else {
      forall i | 0 <= i < |us| ensures Reach(q, us, s.max) <= i <==> |Openly(q, us[..i])| >= s.max {
        ReachExactly(q, us, s.max, i);
      }
    }
  }

  lemma BudgetLeft(q: Query, cs: seq<seq<User>>)
    ensures var s, h := Channels(q, cs, {}, MAXREPLIES), |OnChannel(q, AllCandidates(q, cs))|;
            if h < MAXREPLIES then s.max == MAXREPLIES - h && s.marks == AllCandidates(q, cs) else s.max == 0
  {
    BudgetUsedUp(q, cs);
    assert AllNews(q, cs, {}) == OnChannel(q, AllCandidates(q, cs));
    if |AllNews(q, cs, {})| < MAXREPLIES {
      ChannelsLeave(q, cs, {}, MAXREPLIES);
    }
  }

  // ---------------------------------------------------------------------------------------
  // Who is listed, in terms of the clients
  // ---------------------------------------------------------------------------------------

  /** The mask is missing, or matches one of the texts of the client; its server only where that may be asked for. */
  ghost predicate Asks(q: Query, u: User, byServer: bool) {
    || q.mask == None
    || q.matches(q.mask.value, u.name) || q.matches(q.mask.value, u.username) || q.matches(q.mask.value, u.host)
    || q.matches(q.mask.value, u.info) || (byServer && q.matches(q.mask.value, u.server))
  }

  ghost predicate OnSome(cs: seq<seq<User>>, u: User) {
    exists i :: 0 <= i < |cs| && u in cs[i]
  }

  lemma {:induction false} CandidateExactly(q: Query, cs: seq<seq<User>>, u: User)
    ensures u in AllCandidates(q, cs) <==> OnSome(cs, u) && u.invisible && Eligible(q, u)
  {
    if cs != [] {
      CandidateExactly(q, cs[1..], u);
      assert forall i | 0 <= i < |cs[1..]| :: cs[1..][i] == cs[i + 1];
      assert OnSome(cs, u) <==> u in cs[0] || OnSome(cs[1..], u) by {
        if i :| 0 <= i < |cs| && u in cs[i] {
          assert i > 0 ==> cs[1..][i - 1] == cs[i];
        }
        if i :| 0 <= i < |cs[1..]| && u in cs[1..][i] {
          assert u in cs[i + 1];
        }
      }
    }
  }

  lemma FoundOnce(us: set<User>, u: User)
    ensures multiset(Replies(us))[Found(u)] == if u in us then 1 else 0
    ensures multiset(Replies(us))[LimitExceeded] == 0 && TooBusy !in Replies(us)
  {
  }

  /**
   Below the limit a client is listed, and then once, exactly when it fits the request and is visible,
   or is invisible and on a channel of the requester; an operator who hides that is known to operators
   only, and servers that are hidden from users cannot be asked for to find invisible clients.
   */
  lemma ListedExactly(q: Query, cs: seq<seq<User>>, us: seq<User>, u: User)
    requires Distinct(us) && Known(cs, us) && |Visible(q, cs, us)| < MAXREPLIES
    ensures multiset(Global(q, cs, us, {}).out)[Found(u)] ==
            if (q.serverOper ==> u.oper && (!u.hidden || q.oper)) &&
               (if u.invisible then OnSome(cs, u) && Asks(q, u, !q.hideServers || q.oper)
                else u in us && u.isClient && Asks(q, u, true)) then 1 else 0
  {
    EachOnce(q, cs, us);
    CandidateExactly(q, cs, u);
    FoundOnce(Visible(q, cs, us), u);
  }

  lemma {:induction false} CommonNotices(q: Query, us: seq<User>, marks: set<User>, max: nat)
    ensures multiset(Common(q, us, marks, max).out)[LimitExceeded] ==
            if max > 0 && Common(q, us, marks, max).max == 0 then 1 else 0
  {
    if us != [] {
      var u, t := us[0], us[1..];
      if !u.invisible || u in marks || !Eligible(q, u) {
        CommonNotices(q, t, marks, max);
      } else if !HitOnChannel(q, u) {
        CommonNotices(q, t, marks + {u}, max);
      } else if max != 1 {
        CommonNotices(q, t, marks + {u}, Less(max));
      }
    }
  }

  lemma {:induction false} ChannelsNotices(q: Query, cs: seq<seq<User>>, marks: set<User>, max: nat)
    ensures multiset(Channels(q, cs, marks, max).out)[LimitExceeded] ==
            if max > 0 && Channels(q, cs, marks, max).max == 0 then 1 else 0
  {
    if cs != [] {
      CommonNotices(q, cs[0], marks, max);
      var s := Common(q, cs[0], marks, max);
      var t := Channels(q, cs[1..], s.marks, s.max);
      ChannelsNotices(q, cs[1..], s.marks, s.max);
      UsedUpStays(q, cs[1..], s.marks);
      NoBudget(q, cs[0], marks);
      assert multiset(s.out + t.out) == multiset(s.out) + multiset(t.out);
    }
  }

  lemma {:induction false} UsedUpStays(q: Query, cs: seq<seq<User>>, marks: set<User>)
    ensures Channels(q, cs, marks, 0).max == 0
  {
    if cs != [] {
      NoBudget(q, cs[0], marks);
      UsedUpStays(q, cs[1..], Common(q, cs[0], marks, 0).marks);
    }
  }

  lemma {:induction false} NoBudget(q: Query, us: seq<User>, marks: set<User>)
    ensures Common(q, us, marks, 0).max == 0
  {
    if us != [] {
      NoBudget(q, us[1..], marks);
      NoBudget(q, us[1..], marks + {us[0]});
    }
  }

  lemma NoticeBehind(u: User, max: nat, rest: seq<Reply>)
    requires max != 1
    ensures multiset(Told(u, max) + rest)[LimitExceeded] == multiset(rest)[LimitExceeded]
  {
  }

  lemma {:induction false} EveryoneNotices(q: Query, us: seq<User>, marks: set<User>, max: nat)
    requires Distinct(us)
    ensures multiset(Everyone(q, us, marks, max).out)[LimitExceeded] ==
            if max > 0 && |Openly(q, us)| >= max then 1 else 0
  {
    if us != [] {
      var u, t := us[0], us[1..];
      OpenlyCons(q, us);
      assert u in Openly(q, us) <==> u.isClient && !u.invisible && Eligible(q, u) && HitGlobally(q, u);
      if u in Openly(q, us) {
        if max == 1 {
          assert |Openly(q, us)| >= 1;
        } else {
          EveryoneNotices(q, t, marks, Less(max));
          NoticeBehind(u, max, Everyone(q, t, marks, Less(max)).out);
        }
      } else {
        EveryoneNotices(q, t, if u.isClient && u.invisible then marks - {u} else marks, max);
      }
    } else {
      assert Openly(q, us) == {};
    }
  }

  /** The requester is told that the limit is reached, and told once, exactly when that many should be listed. */
  lemma LimitReported(q: Query, cs: seq<seq<User>>, us: seq<User>)
    requires Distinct(us) && Known(cs, us)
    ensures multiset(Global(q, cs, us, {}).out)[LimitExceeded] ==
            if |Visible(q, cs, us)| >= MAXREPLIES then 1 else 0
  {
    var s := Channels(q, cs, {}, MAXREPLIES);
    ChannelsNotices(q, cs, {}, MAXREPLIES);
    EveryoneNotices(q, us, s.marks, s.max);
    BudgetLeft(q, cs);
    VisibleCount(q, cs, us);
  }

  lemma VisibleCount(q: Query, cs: seq<seq<User>>, us: seq<User>)
    requires Known(cs, us)
    ensures |Visible(q, cs, us)| == |OnChannel(q, AllCandidates(q, cs))| + |Openly(q, us)|
  {
    CandidatesKnown(q, cs, us);
    assert OnChannel(q, AllCandidates(q, cs)) !! Openly(q, us);
  }

  // ---------------------------------------------------------------------------------------
  // A WHO of each kind
  // ---------------------------------------------------------------------------------------

  /** A WHO without a mask. */
  ghost function Anyone(): Query {
    Query(None, (mask, text) => false, false, false, false)
  }

  ghost predicate Clients(us: seq<User>, invisible: bool) {
    Distinct(us) && forall i | 0 <= i < |us| :: us[i].isClient && us[i].invisible == invisible
  }

  method Crowd(n: nat, invisible: bool) returns (us: seq<User>)
    ensures |us| == n && Clients(us, invisible)
  {
    us := [];
    ghost var made: set<User> := {};
    while |us| < n
      invariant |us| <= n && Clients(us, invisible) && Among(us, made)
    {
      var u := new User.Client(invisible);
      assert u !in made;
      us := us + [u];
      made := made + {u};
    }
  }

  lemma CrowdOpen(us: seq<User>)
    requires Clients(us, false)
    ensures Openly(Anyone(), us) == (set u | u in us) && |Openly(Anyone(), us)| == |us|
  {
    CrowdSize(us);
  }

  lemma CrowdHidden(us: seq<User>)
    requires Clients(us, true)
    ensures OnChannel(Anyone(), AllCandidates(Anyone(), [us])) == (set u | u in us) && Openly(Anyone(), us) == {}
    ensures |OnChannel(Anyone(), AllCandidates(Anyone(), [us]))| == |us|
  {
    assert [us][1..] == [];
    CrowdSize(us);
  }

  lemma {:induction false} CrowdSize(us: seq<User>)
    requires Distinct(us)
    ensures |set u | u in us| == |us|
  {
    if us != [] {
      CrowdSize(us[1..]);
      assert (set u | u in us) == (set u | u in us[1..]) + {us[0]} by { assert us == [us[0]] + us[1..]; }
    }
  }

  lemma NoLaterChannel(q: Query, us: seq<User>, max: nat, k: nat, j: nat)
    requires ReachedAt(q, [us], {}, max, k, j)
    ensures Late(q, [us], {}, k, j) == {}
  {
    assert [us][k + 1..] == [];
  }

  /** 499 visible clients, and an invisible one on a channel with the requester: it stays marked. */
  method MarkIsLeft() returns (cs: seq<seq<User>>, us: seq<User>)
    ensures Distinct(us) && Known(cs, us) && Global(Anyone(), cs, us, {}).marks != {}
  {
    var crowd := Crowd(MAXREPLIES - 1, false);
    var v := Crowd(1, true);
    cs, us := [v], crowd + v;
    assert v == [v[0]] && forall i | 0 <= i < |crowd| :: crowd[i] != v[0];
    CrowdOpen(crowd);
    CrowdHidden(v);
    assert us[..|crowd|] == crowd && us[|crowd|] in AllCandidates(Anyone(), cs);
    MarksLeftExactly(Anyone(), cs, us);
  }

  /** 500 invisible clients on a channel with the requester, and a visible one: 501 replies. */
  method OneTooMany() returns (cs: seq<seq<User>>, us: seq<User>)
    ensures Distinct(us) && Known(cs, us) && Listed(Global(Anyone(), cs, us, {}).out) == MAXREPLIES + 1
  {
    var crowd := Crowd(MAXREPLIES, true);
    var v := Crowd(1, false);
    cs, us := [crowd], crowd + v;
    assert v == [v[0]] && forall i | 0 <= i < |crowd| :: crowd[i] != v[0];
    CrowdAndOne(crowd, v, us);
  }

  lemma CrowdAndOne(crowd: seq<User>, v: seq<User>, us: seq<User>)
    requires Clients(crowd, true) && |crowd| == MAXREPLIES && Clients(v, false) && |v| == 1
    requires Distinct(us) && us == crowd + v
    ensures Listed(Global(Anyone(), [crowd], us, {}).out) == MAXREPLIES + 1
  {
    CrowdHidden(crowd);
    OpenAreLast(crowd, v);
    CrowdOpen(v);
    var k, j := RepliesBeyond(Anyone(), [crowd], us);
    NoLaterChannel(Anyone(), crowd, MAXREPLIES, k, j);
  }

  lemma OpenAreLast(crowd: seq<User>, v: seq<User>)
    requires Clients(crowd, true)
    ensures Openly(Anyone(), crowd + v) == Openly(Anyone(), v)
  {
  }
}
