/**
 G-line voting: three operators on three servers must ask for the same network-wide ban, or for its
 removal, before a server acts on it; votes lapse when no further one arrives in time.

 A pending request is a record of a pending list and is changed there.  Looking up a ban is a
 parameter, and the clock is passed in with every step.
 */
module Glines {
  import opened Basics
  import opened IrcStrings

  const PENDING_USER := USERLEN * 2 + 1
  const PENDING_HOST := HOSTLEN * 2 + 1
  const REASONLEN := 180

  datatype Kind = Del | Add

  datatype Outcome = NotPlaced | AlreadyVoted | Placed

  datatype Voter = Voter(user: string, host: string, server: string)

  datatype Vote = Vote(oper: Voter, reason: string, time: int)

  const NO_VOTE := Vote(Voter("", "", ""), "", 0)

  datatype Pending = Pending(vote1: Vote, vote2: Vote, last: int, user: string, host: string)

  datatype Ban = Ban(user: string, host: string, reason: string, setAt: int, until: int, database: bool)

  /** A client of this server, and an attempt to ban it. */
  datatype Local = Local(user: string, host: string, dead: bool)

  datatype Attempt = Attempt(client: Local, ban: Ban)

  /**
   find answers find_conf_by_address: the index of the G-line that applies to a mask; date is smalldate;
   matches says whether a client matches user and mask of a ban.
   */
  datatype Config = Config(requestTime: int, glineTime: int, find: (seq<Ban>, string, string) -> Option<nat>,
                           date: int -> string, matches: (Ban, Local) -> bool)

  /** One request for a G-line or its removal, as check_majority receives it. */
  datatype Request = Request(kind: Kind, oper: Voter, user: string, host: string, reason: string, now: int)

  datatype State = State(del: seq<Pending>, add: seq<Pending>, bans: seq<Ban>)

  function Lists(s: State, kind: Kind): seq<Pending> {
    if kind.Add? then s.add else s.del
  }

  ghost function WithList(s: State, kind: Kind, list: seq<Pending>): State {
    if kind.Add? then s.(add := list) else s.(del := list)
  }

  ghost function WithoutEntry(s: State, kind: Kind, k: nat): State {
    WithList(s, kind, RemoveAt(Lists(s, kind), k))
  }

  ghost predicate Same(a: string, b: string) {
    Upper(a) == Upper(b)
  }

  ghost predicate SameMask(p: Pending, user: string, host: string) {
    Same(p.user, user) && Same(p.host, host)
  }

  /** The same user@host or the same server: such a vote does not count twice. */
  ghost predicate Clash(a: Voter, b: Voter) {
    (Same(a.user, b.user) && Same(a.host, b.host)) || Same(a.server, b.server)
  }

  predicate Expired(cfg: Config, p: Pending, now: int) {
    p.last + cfg.requestTime <= now
  }

  ghost function Unexpired(cfg: Config, ps: seq<Pending>, now: int): seq<Pending> {
    if ps == [] then []
    else (if Expired(cfg, ps[0], now) then [] else [ps[0]]) + Unexpired(cfg, ps[1..], now)
  }

  ghost function Cleanup(cfg: Config, s: State, now: int): State {
    State(Unexpired(cfg, s.del, now), Unexpired(cfg, s.add, now), s.bans)
  }

  /** The first pending request for a mask, or the length of the list. */
  ghost function IndexOf(ps: seq<Pending>, user: string, host: string): (k: nat)
    ensures k <= |ps|
    ensures forall i | 0 <= i < k :: !SameMask(ps[i], user, host)
    ensures k < |ps| ==> SameMask(ps[k], user, host)
  {
    if ps == [] || SameMask(ps[0], user, host) then 0
    else
      var k := IndexOf(ps[1..], user, host);
      assert forall i | 1 <= i < k + 1 :: ps[i] == ps[1..][i - 1];
      k + 1
  }

  /** The vote as it is recorded, with its reason cut to the buffer. */
  function VoteBy(r: Request): Vote {
    Vote(r.oper, Trunc(r.reason, REASONLEN), r.now)
  }

  ghost function NewPending(r: Request): Pending {
    Pending(VoteBy(r), NO_VOTE, r.now, Trunc(r.user, PENDING_USER), Trunc(r.host, PENDING_HOST))
  }

  ghost function SecondVote(p: Pending, r: Request): Pending {
    p.(vote2 := VoteBy(r), last := r.now)
  }

  ghost predicate Covered(cfg: Config, s: State, r: Request) {
    r.kind.Add? && cfg.find(s.bans, r.user, r.host).Some?
  }

  /** The reason of a ban: that of the vote with the date of the ban, cut to a line buffer. */
  function BanReason(cfg: Config, reason: string, now: int): string {
    Trunc(reason + " (" + cfg.date(now) + ")", BUFSIZE - 1)
  }

  function NewBan(cfg: Config, r: Request, reason: string): Ban {
    Ban(r.user, r.host, BanReason(cfg, reason, r.now), r.now, r.now + cfg.glineTime, true)
  }

  ghost function PlaceBan(cfg: Config, bans: seq<Ban>, r: Request, reason: string): seq<Ban> {
    bans + [NewBan(cfg, r, reason)]
  }

  /** The attempts of a new ban: on every client that is not dead and matches, in list order. */
  ghost function Attempts(cfg: Config, ban: Ban, clients: seq<Local>): seq<Attempt> {
    if clients == [] then []
    else
      (if clients[0].dead || !cfg.matches(ban, clients[0]) then [] else [Attempt(clients[0], ban)]) +
      Attempts(cfg, ban, clients[1..])
  }

  lemma {:induction false} AttemptsSnoc(cfg: Config, ban: Ban, clients: seq<Local>, c: Local)
    ensures Attempts(cfg, ban, clients + [c]) ==
            Attempts(cfg, ban, clients) + if c.dead || !cfg.matches(ban, c) then [] else [Attempt(c, ban)]
  {
    if clients == [] {
      assert clients + [c] == [c] && [c][1..] == [];
    } else {
      assert (clients + [c])[1..] == clients[1..] + [c];
      AttemptsSnoc(cfg, ban, clients[1..], c);
    }
  }

  /** A client is tried exactly when it is there, not dead, and matches. */
  lemma {:induction false} AttemptedExactly(cfg: Config, ban: Ban, clients: seq<Local>, c: Local)
    ensures Attempt(c, ban) in Attempts(cfg, ban, clients) <==> c in clients && !c.dead && cfg.matches(ban, c)
  {
    if clients != [] {
      AttemptedExactly(cfg, ban, clients[1..], c);
      assert clients == [clients[0]] + clients[1..];
    }
  }

  /** The attempts that carrying out a request makes. */
  ghost function Attempted(cfg: Config, r: Request, reason: string, clients: seq<Local>): seq<Attempt> {
    if r.kind.Add? then Attempts(cfg, NewBan(cfg, r, reason), clients) else []
  }

  ghost function RemoveBan(cfg: Config, bans: seq<Ban>, r: Request): seq<Ban> {
    var f := cfg.find(bans, r.user, r.host);
    if f.Some? && f.value < |bans| && bans[f.value].database then bans[..f.value] + bans[f.value + 1..] else bans
  }

  ghost function Executed(cfg: Config, bans: seq<Ban>, r: Request, reason: string): seq<Ban> {
    if r.kind.Add? then PlaceBan(cfg, bans, r, reason) else RemoveBan(cfg, bans, r)
  }

  /**
   A G-line adds one ban: on the mask that was asked for, from now on for the set time, with the reason
   and the date.  A removal takes out the ban that the lookup finds, if it is in the database.
   */
  ghost predicate CarriedOut(cfg: Config, bans: seq<Ban>, r: Request, reason: string, after: seq<Ban>) {
    match r.kind
    case Add =>
      && |after| == |bans| + 1 && after[..|bans|] == bans
      && var ban := after[|bans|];
      && ban.user == r.user && ban.host == r.host && ban.setAt == r.now && ban.until == r.now + cfg.glineTime
      && ban.database && ban.reason == Trunc(reason + " (" + cfg.date(r.now) + ")", BUFSIZE - 1)
    case Del =>
      match cfg.find(bans, r.user, r.host)
      case None => after == bans
      case Some(k) =>
        if k < |bans| && bans[k].database then
          && |after| == |bans| - 1 && (forall i | 0 <= i < k :: after[i] == bans[i])
          && forall i | k < i < |bans| :: after[i - 1] == bans[i]
        else after == bans
  }

  lemma ExecutedIsCarriedOut(cfg: Config, bans: seq<Ban>, r: Request, reason: string)
    ensures CarriedOut(cfg, bans, r, reason, Executed(cfg, bans, r, reason))
  {
  }

  /** What a vote makes of the pending list of its kind, and the answer. */
  ghost function Voted(ps: seq<Pending>, r: Request): (seq<Pending>, Outcome) {
    var k := IndexOf(ps, r.user, r.host);
    if k == |ps| then ([NewPending(r)] + ps, NotPlaced)
    else if Clash(ps[k].vote1.oper, r.oper) then (ps, AlreadyVoted)
    else if ps[k].vote2.oper.user == "" then (ps[k := SecondVote(ps[k], r)], NotPlaced)
    else if Clash(ps[k].vote2.oper, r.oper) then (ps, AlreadyVoted)
    else (RemoveAt(ps, k), Placed)
  }

  /** The reason that a ban is placed with: the one of the first vote. */
  ghost function FirstReason(ps: seq<Pending>, r: Request): string {
    var k := IndexOf(ps, r.user, r.host);
    if k < |ps| then ps[k].vote1.reason else ""
  }

  /** What check_majority leaves and answers, the lists having been cleaned up already. */
  ghost function Decide(cfg: Config, s: State, r: Request): (State, Outcome) {
    if Covered(cfg, s, r) then (s, NotPlaced)
    else
      var ps := Lists(s, r.kind);
      var v := Voted(ps, r);
      var bans := if v.1.Placed? then Executed(cfg, s.bans, r, FirstReason(ps, r)) else s.bans;
      (WithList(s, r.kind, v.0).(bans := bans), v.1)
  }

  ghost function CheckMajority(cfg: Config, s: State, r: Request): (State, Outcome) {
    Decide(cfg, Cleanup(cfg, s, r.now), r)
  }

  // ---------------------------------------------------------------------------------------
  // The server
  // ---------------------------------------------------------------------------------------

  ghost predicate VoterOk(v: Voter) {
    CString(v.user) && CString(v.host) && CString(v.server)
  }

  ghost predicate RequestOk(r: Request) {
    VoterOk(r.oper) && CString(r.user) && CString(r.host)
  }

  ghost predicate PendingOk(p: Pending) {
    VoterOk(p.vote1.oper) && VoterOk(p.vote2.oper) && CString(p.user) && CString(p.host)
  }

  ghost predicate ListOk(ps: seq<Pending>) {
    forall i | 0 <= i < |ps| :: PendingOk(ps[i])
  }

  class Server {
    var del: seq<Pending>
    var add: seq<Pending>
    var bans: seq<Ban>
    var attempts: seq<Attempt>

    ghost predicate Valid()
      reads this
    {
      ListOk(del) && ListOk(add)
    }

    ghost function Value(): State
      reads this
    {
      State(del, add, bans)
    }

    constructor ()
      ensures Valid() && Value() == State([], [], []) && attempts == []
    {
      del, add, bans, attempts := [], [], [], [];
    }

    /** The inner loop of expire_pending_glines over one list; dropped is the index of its argument. */
    static method ExpireList(cfg: Config, ps0: seq<Pending>, now: int, dropped: Option<nat>) returns (ps: seq<Pending>)
      ensures ps == Unexpired(cfg, if dropped.Some? then RemoveAt(ps0, dropped.value) else ps0, now)
    {
      ps := [];
      var i := 0;
      ghost var kept := if dropped.Some? then RemoveAt(ps0, dropped.value) else ps0;
      ghost var k := 0;
      assert kept[..0] == [];
      while i < |ps0|
        invariant i <= |ps0| && k <= |kept|
        invariant k == if dropped.Some? && dropped.value < i then i - 1 else i
        invariant ps == Unexpired(cfg, kept[..k], now)
      {
        if !(dropped == Some(i)) {
          assert ps0[i] == kept[k];
          UnexpiredSnoc(cfg, kept, k, now);
          if !Expired(cfg, ps0[i], now) {
            ps := ps + [ps0[i]];
          }
          k := k + 1;
        }
        i := i + 1;
      }
      assert kept[..k] == kept;
    }

    /** expire_pending_glines, with the entry to delete in any case given by its list and index. */
    method Expire(cfg: Config, now: int, kind: Kind, dropped: Option<nat>)
      requires Valid() && (dropped.Some? ==> dropped.value < |Lists(Value(), kind)|)
      modifies this`del, this`add
      ensures Valid()
      ensures Value() == Cleanup(cfg, if dropped.None? then old(Value())
                                      else WithoutEntry(old(Value()), kind, dropped.value), now)
    {
      UnexpiredOk(cfg, del, now);
      UnexpiredOk(cfg, add, now);
      if dropped.Some? {
        UnexpiredOk(cfg, RemoveAt(Lists(Value(), kind), dropped.value), now);
      }
      del := ExpireList(cfg, del, now, if kind.Del? then dropped else None);
      add := ExpireList(cfg, add, now, if kind.Add? then dropped else None);
    }

    /** Whether the source of a request clashes with a vote on record. */
    static method HasVoted(vote: Vote, oper: Voter) returns (r: bool)
      requires VoterOk(vote.oper) && VoterOk(oper)
      ensures r <==> Clash(vote.oper, oper)
    {
      var user := IrcCmp(vote.oper.user, oper.user);
      var host := IrcCmp(vote.oper.host, oper.host);
      var server := IrcCmp(vote.oper.server, oper.server);
      r := (user == 0 && host == 0) || server == 0;
    }

    /** The scan of check_majority for the mask of the request. */
    static method Scan(ps: seq<Pending>, r: Request) returns (k: nat)
      requires ListOk(ps) && RequestOk(r)
      ensures k == IndexOf(ps, r.user, r.host)
    {
      k := 0;
      while k < |ps|
        invariant k <= |ps|
        invariant forall i | 0 <= i < k :: !SameMask(ps[i], r.user, r.host)
      {
        var user := IrcCmp(ps[k].user, r.user);
        var host := IrcCmp(ps[k].host, r.host);
        if user == 0 && host == 0 {
          IndexIs(ps, r.user, r.host, k);
          return;
        }
        k := k + 1;
      }
      IndexIs(ps, r.user, r.host, k);
    }

    /** check_majority; clients is the list of local clients. */
    method Check(cfg: Config, r: Request, clients: seq<Local>) returns (outcome: Outcome)
      requires Valid() && RequestOk(r)
      modifies this
      ensures Valid()
      ensures (Value(), outcome) == CheckMajority(cfg, old(Value()), r)
      ensures var s := Cleanup(cfg, old(Value()), r.now);
              attempts == old(attempts) + if !outcome.Placed? then []
                                          else Attempted(cfg, r, FirstReason(Lists(s, r.kind), r), clients)
    {
      assert attempts + [] == attempts;
      Expire(cfg, r.now, r.kind, None);
      if r.kind.Add? && cfg.find(bans, r.user, r.host).Some? {
        return NotPlaced;
      }
      var ps := if r.kind.Add? then add else del;
      var k := Scan(ps, r);
      if k == |ps| {
        // add_new_majority
        var p := Pending(VoteBy(r), NO_VOTE, r.now, Trunc(r.user, PENDING_USER), Trunc(r.host, PENDING_HOST));
        Store(r.kind, [p] + ps);
        return NotPlaced;
      }
      outcome := Join(cfg, r, clients, ps, k, old(Value()));
    }

    /** The part of check_majority for a mask that has an entry. */
    method Join(cfg: Config, r: Request, clients: seq<Local>, ps: seq<Pending>, k: nat, ghost before: State)
        returns (outcome: Outcome)
      requires Valid() && RequestOk(r) && Value() == Cleanup(cfg, before, r.now) && !Covered(cfg, Value(), r)
      requires ps == Lists(Value(), r.kind) && k == IndexOf(ps, r.user, r.host) < |ps|
      modifies this
      ensures Valid()
      ensures (Value(), outcome) == Decide(cfg, old(Value()), r)
      ensures attempts == old(attempts) + if !outcome.Placed? then []
                                          else Attempted(cfg, r, ps[k].vote1.reason, clients)
    {
      assert attempts + [] == attempts;
      var first := HasVoted(ps[k].vote1, r.oper);
      if first {
        return AlreadyVoted;
      }
      if ps[k].vote2.oper.user != "" {
        var second := HasVoted(ps[k].vote2, r.oper);
        if second {
          return AlreadyVoted;
        }
        Place(cfg, r, clients, k, ps[k].vote1.reason, before);
        return Placed;
      }
      Store(r.kind, ps[k := ps[k].(vote2 := VoteBy(r), last := r.now)]);
      return NotPlaced;
    }

    /** The third vote: the server acts, and the entry goes. */
    method Place(cfg: Config, r: Request, clients: seq<Local>, k: nat, reason: string, ghost before: State)
      requires Valid() && Value() == Cleanup(cfg, before, r.now) && k < |Lists(Value(), r.kind)|
      modifies this
      ensures Valid()
      ensures var c := old(Value());
              Value() == WithoutEntry(c, r.kind, k).(bans := Executed(cfg, c.bans, r, reason))
      ensures attempts == old(attempts) + Attempted(cfg, r, reason, clients)
    {
      CleanedUp(cfg, before, r.now, r.kind, k);
      Execute(cfg, r, reason, clients);
      Expire(cfg, r.now, r.kind, Some(k));
    }

    method Store(kind: Kind, ps: seq<Pending>)
      requires Valid() && ListOk(ps)
      modifies this`del, this`add
      ensures Valid() && Value() == WithList(old(Value()), kind, ps)
    {
      if kind.Add? {
        add := ps;
      } else {
        del := ps;
      }
    }

    /** set_local_gline or remove_gline_match. */
    method Execute(cfg: Config, r: Request, reason: string, clients: seq<Local>)
      modifies this`bans, this`attempts
      ensures bans == Executed(cfg, old(bans), r, reason)
      ensures CarriedOut(cfg, old(bans), r, reason, bans)
      ensures attempts == old(attempts) + Attempted(cfg, r, reason, clients)
      ensures attempts == old(attempts) + if r.kind.Add? then Attempts(cfg, bans[|bans| - 1], clients) else []
    {
      ExecutedIsCarriedOut(cfg, bans, r, reason);
      assert attempts + [] == attempts;
      if r.kind.Add? {
        var ban := NewBan(cfg, r, reason);
        bans := bans + [ban];
        CheckGline(cfg, ban, clients);
      } else {
        var f := cfg.find(bans, r.user, r.host);
        if f.Some? && f.value < |bans| && bans[f.value].database {
          bans := bans[..f.value] + bans[f.value + 1..];
        }
      }
    }

    /** check_gline. */
    method CheckGline(cfg: Config, ban: Ban, clients: seq<Local>)
      modifies this`attempts
      ensures attempts == old(attempts) + Attempts(cfg, ban, clients)
    {
      var i := 0;
      assert attempts + [] == attempts;
      while i < |clients|
        invariant i <= |clients|
        invariant attempts == old(attempts) + Attempts(cfg, ban, clients[..i])
      {
        assert clients[..i + 1] == clients[..i] + [clients[i]];
        AttemptsSnoc(cfg, ban, clients[..i], clients[i]);
        if !clients[i].dead && cfg.matches(ban, clients[i]) {
          attempts := attempts + [Attempt(clients[i], ban)];
        }
        i := i + 1;
      }
      assert clients[..i] == clients;
    }
  }

  lemma {:induction false} UnexpiredConcat(cfg: Config, a: seq<Pending>, b: seq<Pending>, now: int)
    ensures Unexpired(cfg, a + b, now) == Unexpired(cfg, a, now) + Unexpired(cfg, b, now)
  {
    if a == [] {
      assert a + b == b;
    } else {
      assert (a + b)[1..] == a[1..] + b;
      UnexpiredConcat(cfg, a[1..], b, now);
    }
  }

  lemma UnexpiredSnoc(cfg: Config, ps: seq<Pending>, k: nat, now: int)
    requires k < |ps|
    ensures Unexpired(cfg, ps[..k + 1], now) ==
            Unexpired(cfg, ps[..k], now) + (if Expired(cfg, ps[k], now) then [] else [ps[k]])
  {
    assert ps[..k + 1] == ps[..k] + [ps[k]];
    UnexpiredConcat(cfg, ps[..k], [ps[k]], now);
    assert [ps[k]][1..] == [];
  }

  ghost predicate NoneExpired(cfg: Config, ps: seq<Pending>, now: int) {
    forall i | 0 <= i < |ps| :: !Expired(cfg, ps[i], now)
  }

  lemma {:induction false} UnexpiredFacts(cfg: Config, ps: seq<Pending>, now: int)
    ensures NoneExpired(cfg, Unexpired(cfg, ps, now), now)
    ensures NoneExpired(cfg, ps, now) ==> Unexpired(cfg, ps, now) == ps
    ensures forall p :: p in Unexpired(cfg, ps, now) ==> p in ps
  {
    if ps != [] {
      UnexpiredFacts(cfg, ps[1..], now);
      assert NoneExpired(cfg, ps, now) ==> NoneExpired(cfg, ps[1..], now);
      assert ps == [ps[0]] + ps[1..];
    }
  }

  /** Of the pending requests those stay whose last vote is less than the voting time ago. */
  lemma {:induction false} LapsedExactly(cfg: Config, ps: seq<Pending>, now: int, p: Pending)
    ensures p in Unexpired(cfg, ps, now) <==> p in ps && now < p.last + cfg.requestTime
  {
    if ps != [] {
      LapsedExactly(cfg, ps[1..], now, p);
      assert ps == [ps[0]] + ps[1..];
    }
  }

  lemma {:induction false} UnexpiredOk(cfg: Config, ps: seq<Pending>, now: int)
    requires ListOk(ps)
    ensures ListOk(Unexpired(cfg, ps, now))
  {
    if ps != [] {
      UnexpiredOk(cfg, ps[1..], now);
    }
  }

  lemma IndexIs(ps: seq<Pending>, user: string, host: string, k: nat)
    requires k <= |ps| && forall i | 0 <= i < k :: !SameMask(ps[i], user, host)
    requires k < |ps| ==> SameMask(ps[k], user, host)
    ensures IndexOf(ps, user, host) == k
  {
  }

  /** A second cleanup at the same time only deletes the entry it is given. */
  lemma CleanedUp(cfg: Config, s: State, now: int, kind: Kind, k: nat)
    requires k < |Lists(Cleanup(cfg, s, now), kind)|
    ensures var c := Cleanup(cfg, s, now);
            forall bans :: Cleanup(cfg, WithoutEntry(c, kind, k).(bans := bans), now) ==
                           WithoutEntry(c, kind, k).(bans := bans)
  {
    var c := Cleanup(cfg, s, now);
    UnexpiredFacts(cfg, s.del, now);
    UnexpiredFacts(cfg, s.add, now);
    UnexpiredFacts(cfg, c.del, now);
    UnexpiredFacts(cfg, c.add, now);
    var ps := RemoveAt(Lists(c, kind), k);
    assert NoneExpired(cfg, ps, now);
    UnexpiredFacts(cfg, ps, now);
  }
}
