/** What G-line voting guarantees over whole runs. */
module GlineRuns {
  import opened Basics
  import opened IrcStrings
  import opened Glines

  datatype Event = Asking(r: Request) | Tick(at: int)

  ghost function Time(e: Event): int {
    match e
    case Asking(r) => r.now
    case Tick(at) => at
  }

  /** The clock never goes back, and operators are registered: their user names are not empty. */
  ghost predicate WellFormed(es: seq<Event>) {
    Ordered(es) && Registered(es)
  }

  ghost predicate Ordered(es: seq<Event>) {
    forall i, j | 0 <= i < j < |es| :: Time(es[i]) <= Time(es[j])
  }

  ghost predicate Registered(es: seq<Event>) {
    forall i | 0 <= i < |es| && es[i].Asking? :: es[i].r.oper.user != ""
  }

  ghost function Step(cfg: Config, s: State, e: Event): State {
    match e
    case Asking(r) => CheckMajority(cfg, s, r).0
    case Tick(at) => Cleanup(cfg, s, at)
  }

  ghost function Answer(cfg: Config, s: State, e: Event): Outcome {
    match e
    case Asking(r) => CheckMajority(cfg, s, r).1
    case Tick(at) => NotPlaced
  }

  /** The state after the first n events. */
  ghost function StateAt(cfg: Config, s: State, es: seq<Event>, n: nat): State
    requires n <= |es|
  {
    if n == 0 then s else Step(cfg, StateAt(cfg, s, es, n - 1), es[n - 1])
  }

  /** Event i leads from the state before it to the one after it. */
  ghost predicate Leads(cfg: Config, ts: seq<State>, es: seq<Event>, i: nat) {
    i < |es| && i + 1 < |ts| && ts[i + 1] == Step(cfg, ts[i], es[i])
  }

  ghost predicate Run(cfg: Config, ts: seq<State>, es: seq<Event>) {
    |ts| == |es| + 1 && forall i: nat | i < |es| :: Leads(cfg, ts, es, i)
  }

  /** The states of a run, one after another. */
  ghost function Trace(cfg: Config, s: State, es: seq<Event>): seq<State> {
    seq(|es| + 1, i requires 0 <= i <= |es| => StateAt(cfg, s, es, i))
  }

  lemma TraceRuns(cfg: Config, s: State, es: seq<Event>, ts: seq<State>)
    requires ts == Trace(cfg, s, es)
    ensures Run(cfg, ts, es) && ts[0] == s && ts[|es|] == StateAt(cfg, s, es, |es|)
  {
    forall i: nat | i < |es| ensures Leads(cfg, ts, es, i) {
      TraceAt(cfg, s, es, ts, i);
      TraceAt(cfg, s, es, ts, i + 1);
      StateLeads(cfg, s, es, ts, i);
    }
    TraceAt(cfg, s, es, ts, 0);
    TraceAt(cfg, s, es, ts, |es|);
  }

  lemma TraceAt(cfg: Config, s: State, es: seq<Event>, ts: seq<State>, i: nat)
    requires ts == Trace(cfg, s, es) && i <= |es|
    ensures |ts| == |es| + 1 && ts[i] == StateAt(cfg, s, es, i)
  {
  }

  lemma StateLeads(cfg: Config, s: State, es: seq<Event>, ts: seq<State>, i: nat)
    requires i < |es| && i + 1 < |ts| && ts[i] == StateAt(cfg, s, es, i) && ts[i + 1] == StateAt(cfg, s, es, i + 1)
    ensures Leads(cfg, ts, es, i)
  {
  }

  /** What an event makes of one pending list; covered says that a ban already applies to its mask. */
  ghost function ListStep(cfg: Config, ps: seq<Pending>, e: Event, kind: Kind, covered: bool): seq<Pending> {
    var us := Unexpired(cfg, ps, Time(e));
    if e.Asking? && e.r.kind == kind && !covered then Voted(us, e.r).0 else us
  }

  lemma StepLists(cfg: Config, s: State, e: Event, kind: Kind)
    ensures Lists(Step(cfg, s, e), kind) == ListStep(cfg, Lists(s, kind), e, kind, e.Asking? && Covered(cfg, s, e.r))
  {
  }

  // ---------------------------------------------------------------------------------------
  // Safety: what stands behind a pending request and behind a placed ban
  // ---------------------------------------------------------------------------------------

  ghost predicate VoteOf(es: seq<Event>, i: nat, kind: Kind, v: Vote) {
    i < |es| && es[i].Asking? && es[i].r.kind == kind && v == VoteBy(es[i].r)
  }

  /** Event i is the first vote of p. */
  ghost predicate FirstOf(es: seq<Event>, i: nat, kind: Kind, p: Pending) {
    && VoteOf(es, i, kind, p.vote1)
    && p.user == Trunc(es[i].r.user, PENDING_USER) && p.host == Trunc(es[i].r.host, PENDING_HOST)
  }

  /** Event j is the second vote of p: another operator, another server, in time. */
  ghost predicate SecondOf(cfg: Config, es: seq<Event>, j: nat, kind: Kind, p: Pending) {
    && VoteOf(es, j, kind, p.vote2) && SameMask(p, es[j].r.user, es[j].r.host)
    && !Clash(p.vote1.oper, p.vote2.oper)
    && p.vote2.time < p.vote1.time + cfg.requestTime && p.last == p.vote2.time
  }

  ghost predicate Backed(cfg: Config, es: seq<Event>, n: nat, kind: Kind, p: Pending) {
    exists i: nat :: i < n && FirstOf(es, i, kind, p) &&
      (if p.vote2.oper.user == "" then p.last == p.vote1.time
       else exists j: nat :: i < j < n && SecondOf(cfg, es, j, kind, p))
  }

  ghost predicate AllBacked(cfg: Config, es: seq<Event>, n: nat, kind: Kind, ps: seq<Pending>) {
    forall i | 0 <= i < |ps| :: Backed(cfg, es, n, kind, ps[i])
  }

  lemma BackedLater(cfg: Config, es: seq<Event>, n: nat, kind: Kind, p: Pending)
    requires Backed(cfg, es, n, kind, p)
    ensures Backed(cfg, es, n + 1, kind, p)
  {
    var i: nat :| i < n && FirstOf(es, i, kind, p) &&
      (if p.vote2.oper.user == "" then p.last == p.vote1.time
       else exists j: nat :: i < j < n && SecondOf(cfg, es, j, kind, p));
    if p.vote2.oper.user != "" {
      var j: nat :| i < j < n && SecondOf(cfg, es, j, kind, p);
      assert i < j < n + 1;
    }
  }

  lemma UnexpiredBacked(cfg: Config, es: seq<Event>, n: nat, kind: Kind, ps: seq<Pending>, now: int)
    requires AllBacked(cfg, es, n, kind, ps)
    ensures AllBacked(cfg, es, n + 1, kind, Unexpired(cfg, ps, now))
    ensures AllBacked(cfg, es, n, kind, Unexpired(cfg, ps, now))
  {
    var us := Unexpired(cfg, ps, now);
    forall i | 0 <= i < |us| ensures Backed(cfg, es, n, kind, us[i]) && Backed(cfg, es, n + 1, kind, us[i]) {
      LapsedExactly(cfg, ps, now, us[i]);
      BackedItem(cfg, es, n, kind, ps, us[i]);
      BackedLater(cfg, es, n, kind, us[i]);
    }
  }

  lemma BackedItem(cfg: Config, es: seq<Event>, n: nat, kind: Kind, ps: seq<Pending>, p: Pending)
    requires AllBacked(cfg, es, n, kind, ps) && p in ps
    ensures Backed(cfg, es, n, kind, p)
  {
  }

  /** The second vote that is recorded on an unexpired entry backs the new entry. */
  lemma SecondBacked(cfg: Config, es: seq<Event>, n: nat, p: Pending)
    requires n < |es| && es[n].Asking? && es[n].r.oper.user != ""
    requires Backed(cfg, es, n, es[n].r.kind, p) && p.vote2.oper.user == ""
    requires !Expired(cfg, p, es[n].r.now) && SameMask(p, es[n].r.user, es[n].r.host)
    requires !Clash(p.vote1.oper, es[n].r.oper)
    ensures Backed(cfg, es, n + 1, es[n].r.kind, SecondVote(p, es[n].r))
  {
    var r := es[n].r;
    var q := SecondVote(p, r);
    var i: nat :| i < n && FirstOf(es, i, r.kind, p) && p.last == p.vote1.time;
    assert FirstOf(es, i, r.kind, q);
    assert SecondOf(cfg, es, n, r.kind, q);
    assert i < n < n + 1;
  }

  lemma FirstBacked(cfg: Config, es: seq<Event>, n: nat)
    requires n < |es| && es[n].Asking?
    ensures Backed(cfg, es, n + 1, es[n].r.kind, NewPending(es[n].r))
  {
    assert FirstOf(es, n, es[n].r.kind, NewPending(es[n].r));
  }

  lemma VotedBacked(cfg: Config, es: seq<Event>, n: nat, ps: seq<Pending>)
    requires n < |es| && es[n].Asking? && es[n].r.oper.user != ""
    requires NoneExpired(cfg, ps, es[n].r.now)
    requires AllBacked(cfg, es, n, es[n].r.kind, ps) && AllBacked(cfg, es, n + 1, es[n].r.kind, ps)
    ensures AllBacked(cfg, es, n + 1, es[n].r.kind, Voted(ps, es[n].r).0)
  {
    var r := es[n].r;
    var k := IndexOf(ps, r.user, r.host);
    if k == |ps| {
      FirstBacked(cfg, es, n);
      BackedCons(cfg, es, n + 1, r.kind, NewPending(r), ps);
    } else if !Clash(ps[k].vote1.oper, r.oper) {
      if ps[k].vote2.oper.user == "" {
        SecondUpdate(cfg, es, n, ps, k);
      } else {
        BackedWithout(cfg, es, n + 1, r.kind, ps, k);
      }
    }
  }

  lemma SecondUpdate(cfg: Config, es: seq<Event>, n: nat, ps: seq<Pending>, k: nat)
    requires n < |es| && es[n].Asking? && es[n].r.oper.user != "" && k < |ps|
    requires NoneExpired(cfg, ps, es[n].r.now) && SameMask(ps[k], es[n].r.user, es[n].r.host)
    requires ps[k].vote2.oper.user == "" && !Clash(ps[k].vote1.oper, es[n].r.oper)
    requires AllBacked(cfg, es, n, es[n].r.kind, ps) && AllBacked(cfg, es, n + 1, es[n].r.kind, ps)
    ensures AllBacked(cfg, es, n + 1, es[n].r.kind, ps[k := SecondVote(ps[k], es[n].r)])
  {
    BackedItem(cfg, es, n, es[n].r.kind, ps, ps[k]);
    SecondBacked(cfg, es, n, ps[k]);
    BackedUpdate(cfg, es, n + 1, es[n].r.kind, ps, k, SecondVote(ps[k], es[n].r));
  }

  lemma BackedCons(cfg: Config, es: seq<Event>, n: nat, kind: Kind, p: Pending, ps: seq<Pending>)
    requires Backed(cfg, es, n, kind, p) && AllBacked(cfg, es, n, kind, ps)
    ensures AllBacked(cfg, es, n, kind, [p] + ps)
  {
  }

  lemma BackedUpdate(cfg: Config, es: seq<Event>, n: nat, kind: Kind, ps: seq<Pending>, k: nat, q: Pending)
    requires k < |ps| && Backed(cfg, es, n, kind, q) && AllBacked(cfg, es, n, kind, ps)
    ensures AllBacked(cfg, es, n, kind, ps[k := q])
  {
  }

  lemma BackedWithout(cfg: Config, es: seq<Event>, n: nat, kind: Kind, ps: seq<Pending>, k: nat)
    requires AllBacked(cfg, es, n, kind, ps)
    ensures AllBacked(cfg, es, n, kind, RemoveAt(ps, k))
  {
  }

  lemma ListStepBacked(cfg: Config, es: seq<Event>, n: nat, ps: seq<Pending>, kind: Kind, covered: bool)
    requires n < |es| && (es[n].Asking? ==> es[n].r.oper.user != "")
    requires AllBacked(cfg, es, n, kind, ps)
    ensures AllBacked(cfg, es, n + 1, kind, ListStep(cfg, ps, es[n], kind, covered))
  {
    UnexpiredBacked(cfg, es, n, kind, ps, Time(es[n]));
    if es[n].Asking? && es[n].r.kind == kind {
      UnexpiredFacts(cfg, ps, Time(es[n]));
      VotedBacked(cfg, es, n, Unexpired(cfg, ps, Time(es[n])));
    }
  }

  lemma StepBacked(cfg: Config, s: State, es: seq<Event>, n: nat, kind: Kind, t: State)
    requires n < |es| && Registered(es) && AllBacked(cfg, es, n, kind, Lists(s, kind)) && t == Step(cfg, s, es[n])
    ensures AllBacked(cfg, es, n + 1, kind, Lists(t, kind))
  {
    StepLists(cfg, s, es[n], kind);
    ListStepBacked(cfg, es, n, Lists(s, kind), kind, es[n].Asking? && Covered(cfg, s, es[n].r));
  }

  /** Every pending request is backed by recorded votes, at every moment of every run. */
  lemma {:induction false} RunBacked(cfg: Config, ts: seq<State>, es: seq<Event>, n: nat, kind: Kind)
    requires Run(cfg, ts, es) && Registered(es) && n < |ts| && ts[0].del == ts[0].add == []
    ensures AllBacked(cfg, es, n, kind, Lists(ts[n], kind))
  {
    if n > 0 {
      RunBacked(cfg, ts, es, n - 1, kind);
      RunLeads(cfg, ts, es, n - 1);
      LeadsBacked(cfg, ts, es, n - 1, kind);
    }
  }

  lemma RunLeads(cfg: Config, ts: seq<State>, es: seq<Event>, n: nat)
    requires Run(cfg, ts, es) && n < |es|
    ensures Leads(cfg, ts, es, n)
  {
  }

  lemma LeadsBacked(cfg: Config, ts: seq<State>, es: seq<Event>, n: nat, kind: Kind)
    requires Leads(cfg, ts, es, n) && Registered(es) && AllBacked(cfg, es, n, kind, Lists(ts[n], kind))
    ensures AllBacked(cfg, es, n + 1, kind, Lists(ts[n + 1], kind))
  {
    StepBacked(cfg, ts[n], es, n, kind, ts[n + 1]);
  }

  /** Neither the same user@host nor the same server, case aside. */
  ghost predicate Apart(a: Voter, b: Voter) {
    && !(Upper(a.user) == Upper(b.user) && Upper(a.host) == Upper(b.host))
    && Upper(a.server) != Upper(b.server)
  }

  /** Three votes for one mask: three operators on three servers, each in time after the one before. */
  ghost predicate ThreeVotes(cfg: Config, es: seq<Event>, i: nat, j: nat, k: nat) {
    && i < j < k < |es| && es[i].Asking? && es[j].Asking? && es[k].Asking?
    && es[i].r.kind == es[j].r.kind == es[k].r.kind
    && Upper(Trunc(es[i].r.user, PENDING_USER)) == Upper(es[j].r.user) == Upper(es[k].r.user)
    && Upper(Trunc(es[i].r.host, PENDING_HOST)) == Upper(es[j].r.host) == Upper(es[k].r.host)
    && Apart(es[i].r.oper, es[j].r.oper) && Apart(es[i].r.oper, es[k].r.oper) && Apart(es[j].r.oper, es[k].r.oper)
    && es[i].r.now <= es[j].r.now < es[i].r.now + cfg.requestTime
    && es[j].r.now <= es[k].r.now < es[j].r.now + cfg.requestTime
  }

  /**
   In every run a G-line is placed, or a removal carried out, only on such a third vote; the three
   lie within twice the voting window.
   */
  lemma PlacedByThreeVotes(cfg: Config, ts: seq<State>, es: seq<Event>, k: nat) returns (i: nat, j: nat)
    requires Run(cfg, ts, es) && WellFormed(es) && k < |es| && ts[0].del == ts[0].add == []
    requires Answer(cfg, ts[k], es[k]) == Placed
    ensures ThreeVotes(cfg, es, i, j, k)
    ensures es[k].r.now < es[i].r.now + 2 * cfg.requestTime
    ensures CarriedOut(cfg, ts[k].bans, es[k].r, Trunc(es[i].r.reason, REASONLEN), ts[k + 1].bans)
  {
    assert Leads(cfg, ts, es, k);
    var t, r := ts[k], es[k].r;
    var ps := Unexpired(cfg, Lists(t, r.kind), r.now);
    RunBacked(cfg, ts, es, k, r.kind);
    UnexpiredBacked(cfg, es, k, r.kind, Lists(t, r.kind), r.now);
    UnexpiredFacts(cfg, Lists(t, r.kind), r.now);
    var p := ps[IndexOf(ps, r.user, r.host)];
    assert Backed(cfg, es, k, r.kind, p);
    i :| i < k && FirstOf(es, i, r.kind, p) && exists j: nat :: i < j < k && SecondOf(cfg, es, j, r.kind, p);
    j :| i < j < k && SecondOf(cfg, es, j, r.kind, p);
    ExecutedIsCarriedOut(cfg, t.bans, r, p.vote1.reason);
  }

  /** Nothing else in a run changes the bans. */
  lemma BansChangeOnlyThen(cfg: Config, ts: seq<State>, es: seq<Event>, k: nat)
    requires Run(cfg, ts, es) && k < |es| && Answer(cfg, ts[k], es[k]) != Placed
    ensures ts[k + 1].bans == ts[k].bans
  {
    assert Leads(cfg, ts, es, k);
  }

  // ---------------------------------------------------------------------------------------
  // One entry per mask
  // ---------------------------------------------------------------------------------------

  ghost predicate Unique(ps: seq<Pending>) {
    forall i, j | 0 <= i < j < |ps| :: !SameMask(ps[i], ps[j].user, ps[j].host)
  }

  ghost predicate UniqueState(s: State) {
    Unique(s.del) && Unique(s.add)
  }

  /** The mask fits the buffers of a pending entry. */
  ghost predicate Fits(r: Request) {
    |r.user| <= PENDING_USER && |r.host| <= PENDING_HOST
  }

  lemma {:induction false} UnexpiredUnique(cfg: Config, ps: seq<Pending>, now: int)
    requires Unique(ps)
    ensures Unique(Unexpired(cfg, ps, now))
  {
    if ps != [] {
      var t := ps[1..];
      UnexpiredUnique(cfg, t, now);
      UnexpiredFacts(cfg, t, now);
      var u := Unexpired(cfg, t, now);
      forall j | 0 <= j < |u| ensures !SameMask(ps[0], u[j].user, u[j].host) {
        assert u[j] in t;
        var m :| 0 <= m < |t| && t[m] == u[j];
        assert ps[m + 1] == u[j];
      }
    }
  }

  lemma TruncFits(r: Request)
    requires Fits(r)
    ensures NewPending(r).user == r.user && NewPending(r).host == r.host
  {
  }

  lemma UniqueCons(p: Pending, ps: seq<Pending>)
    requires Unique(ps) && forall i | 0 <= i < |ps| :: !SameMask(ps[i], p.user, p.host)
    ensures Unique([p] + ps)
  {
    var qs := [p] + ps;
    forall i, j | 0 <= i < j < |qs| ensures !SameMask(qs[i], qs[j].user, qs[j].host) {
      if i == 0 {
        assert !SameMask(ps[j - 1], p.user, p.host);
      } else {
        assert !SameMask(ps[i - 1], ps[j - 1].user, ps[j - 1].host);
      }
    }
  }

  lemma UniqueUpdate(ps: seq<Pending>, k: nat, q: Pending)
    requires Unique(ps) && k < |ps| && q.user == ps[k].user && q.host == ps[k].host
    ensures Unique(ps[k := q])
  {
    var qs := ps[k := q];
    forall i, j | 0 <= i < j < |qs| ensures !SameMask(qs[i], qs[j].user, qs[j].host) {
      assert !SameMask(ps[i], ps[j].user, ps[j].host);
    }
  }

  lemma UniqueWithout(ps: seq<Pending>, k: nat)
    requires Unique(ps) && k < |ps|
    ensures Unique(RemoveAt(ps, k))
  {
    var qs := RemoveAt(ps, k);
    forall i, j | 0 <= i < j < |qs| ensures !SameMask(qs[i], qs[j].user, qs[j].host) {
      var i', j' := if i < k then i else i + 1, if j < k then j else j + 1;
      assert !SameMask(ps[i'], ps[j'].user, ps[j'].host);
    }
  }

  lemma VotedUnique(ps: seq<Pending>, r: Request)
    requires Unique(ps) && Fits(r)
    ensures Unique(Voted(ps, r).0)
  {
    var k := IndexOf(ps, r.user, r.host);
    if k == |ps| {
      TruncFits(r);
      UniqueCons(NewPending(r), ps);
    } else {
      UniqueUpdate(ps, k, SecondVote(ps[k], r));
      UniqueWithout(ps, k);
    }
  }

  lemma ListStepUnique(cfg: Config, ps: seq<Pending>, e: Event, kind: Kind, covered: bool)
    requires Unique(ps) && (e.Asking? ==> Fits(e.r))
    ensures Unique(ListStep(cfg, ps, e, kind, covered))
  {
    UnexpiredUnique(cfg, ps, Time(e));
    if e.Asking? {
      VotedUnique(Unexpired(cfg, ps, Time(e)), e.r);
    }
  }

  /** An event about masks that fit keeps one entry per mask. */
  lemma FittingKeepsUnique(cfg: Config, s: State, e: Event)
    requires UniqueState(s) && (e.Asking? ==> Fits(e.r))
    ensures UniqueState(Step(cfg, s, e))
  {
    var covered := e.Asking? && Covered(cfg, s, e.r);
    StepLists(cfg, s, e, Del);
    StepLists(cfg, s, e, Add);
    ListStepUnique(cfg, s.del, e, Del, covered);
    ListStepUnique(cfg, s.add, e, Add, covered);
  }

  ghost predicate AllFit(es: seq<Event>) {
    forall i | 0 <= i < |es| && es[i].Asking? :: Fits(es[i].r)
  }

  /** In every run in which the masks fit, each pending list has one entry per mask at every moment. */
  lemma {:induction false} RunUnique(cfg: Config, ts: seq<State>, es: seq<Event>, n: nat)
    requires Run(cfg, ts, es) && n < |ts| && AllFit(es) && ts[0].del == ts[0].add == []
    ensures UniqueState(ts[n])
  {
    if n > 0 {
      RunUnique(cfg, ts, es, n - 1);
      assert Leads(cfg, ts, es, n - 1);
      FittingKeepsUnique(cfg, ts[n - 1], es[n - 1]);
    }
  }

  /** A pending entry with a given mask that is alone in its list. */
  ghost function Lone(kind: Kind, user: string, host: string, now: int): State {
    WithList(State([], [], []), kind, [Pending(Vote(Voter("u", "h", "s"), "", now), NO_VOTE, now, user, host)])
  }

  lemma TruncDiffers(s: string, n: nat)
    ensures Same(Trunc(s, n), s) <==> |s| <= n
  {
    assert |Upper(Trunc(s, n))| == |Trunc(s, n)| && |Upper(s)| == |s|;
  }

  /**
   One entry per mask is kept from every state exactly when the mask fits: a longer one is cut off
   as it is stored, next to an entry that already has the shorter form.
   */
  lemma UniqueExactlyWhenFits(cfg: Config, r: Request)
    requires cfg.requestTime > 0 && cfg.find([], r.user, r.host).None?
    ensures (forall s | UniqueState(s) :: UniqueState(CheckMajority(cfg, s, r).0)) <==> Fits(r)
  {
    if Fits(r) {
      forall s | UniqueState(s) ensures UniqueState(CheckMajority(cfg, s, r).0) {
        FittingKeepsUnique(cfg, s, Asking(r));
      }
    } else {
      var p := NewPending(r);
      var s := Lone(r.kind, p.user, p.host, r.now);
      var ps := Lists(s, r.kind);
      TruncDiffers(r.user, PENDING_USER);
      TruncDiffers(r.host, PENDING_HOST);
      UnexpiredFacts(cfg, ps, r.now);
      assert !SameMask(ps[0], r.user, r.host);
      var qs := Lists(CheckMajority(cfg, s, r).0, r.kind);
      assert qs == [p] + ps;
      assert SameMask(qs[0], qs[1].user, qs[1].host);
    }
  }

  // ---------------------------------------------------------------------------------------
  // Liveness: the entry of one mask, followed through a run
  // ---------------------------------------------------------------------------------------

  /** The entry for a mask. */
  ghost function Entry(ps: seq<Pending>, user: string, host: string): Option<Pending> {
    var k := IndexOf(ps, user, host);
    if k < |ps| then Some(ps[k]) else None
  }

  ghost function Aged(cfg: Config, p: Option<Pending>, now: int): Option<Pending> {
    if p.Some? && Expired(cfg, p.value, now) then None else p
  }

  lemma {:induction false} EntryUnexpired(cfg: Config, ps: seq<Pending>, now: int, user: string, host: string)
    requires Unique(ps)
    ensures Entry(Unexpired(cfg, ps, now), user, host) == Aged(cfg, Entry(ps, user, host), now)
  {
    if ps != [] {
      var t := ps[1..];
      EntryUnexpired(cfg, t, now, user, host);
      EntryCons(ps[0], t, user, host);
      assert ps == [ps[0]] + t;
      if Expired(cfg, ps[0], now) {
        assert Unexpired(cfg, ps, now) == Unexpired(cfg, t, now);
        if SameMask(ps[0], user, host) {
          forall i | 0 <= i < |t| ensures !SameMask(t[i], user, host) {
            assert !SameMask(ps[0], ps[i + 1].user, ps[i + 1].host);
          }
        }
      } else {
        EntryCons(ps[0], Unexpired(cfg, t, now), user, host);
      }
    }
  }

  lemma EntryCons(p: Pending, ps: seq<Pending>, user: string, host: string)
    ensures Entry([p] + ps, user, host) == if SameMask(p, user, host) then Some(p) else Entry(ps, user, host)
  {
    var s := [p] + ps;
    assert s[1..] == ps;
    if !SameMask(p, user, host) {
      IndexIs(s, user, host, 1 + IndexOf(ps, user, host));
    }
  }

  lemma SameIndex(ps: seq<Pending>, user: string, host: string, user': string, host': string)
    requires Same(user, user') && Same(host, host')
    ensures IndexOf(ps, user, host) == IndexOf(ps, user', host')
  {
    IndexIs(ps, user, host, IndexOf(ps, user', host'));
  }

  /** The request is about this mask and kind. */
  ghost predicate About(e: Event, kind: Kind, user: string, host: string) {
    e.Asking? && e.r.kind == kind && Upper(e.r.user) == Upper(user) && Upper(e.r.host) == Upper(host)
  }

  lemma EntryUpdate(ps: seq<Pending>, k: nat, q: Pending, user: string, host: string)
    requires k < |ps| && q.user == ps[k].user && q.host == ps[k].host
    ensures Entry(ps[k := q], user, host) == if IndexOf(ps, user, host) == k then Some(q) else Entry(ps, user, host)
  {
    IndexIs(ps[k := q], user, host, IndexOf(ps, user, host));
  }

  lemma EntryWithout(ps: seq<Pending>, k: nat, user: string, host: string)
    requires k < |ps| && Unique(ps)
    ensures Entry(RemoveAt(ps, k), user, host) == if IndexOf(ps, user, host) == k then None else Entry(ps, user, host)
  {
    if IndexOf(ps, user, host) == k {
      GoneWithout(ps, k, user, host);
    } else {
      EntryKept(ps, k, user, host);
    }
  }

  lemma EntryKept(ps: seq<Pending>, k: nat, user: string, host: string)
    requires k < |ps| && IndexOf(ps, user, host) != k
    ensures Entry(RemoveAt(ps, k), user, host) == Entry(ps, user, host)
  {
    var m := IndexOf(ps, user, host);
    var j := if m < k then m else m - 1;
    KeptWithout(ps, k, user, host);
    RemovedItem(ps, k, j, m);
  }

  lemma RemovedItem<X>(s: seq<X>, k: nat, j: nat, m: nat)
    requires k < |s| && m != k && j == if m < k then m else m - 1
    ensures |RemoveAt(s, k)| == |s| - 1 && (j < |s| - 1 <==> m < |s|)
    ensures m < |s| ==> RemoveAt(s, k)[j] == s[m]
  {
  }

  lemma GoneWithout(ps: seq<Pending>, k: nat, user: string, host: string)
    requires k < |ps| && Unique(ps) && IndexOf(ps, user, host) == k
    ensures IndexOf(RemoveAt(ps, k), user, host) == |ps| - 1
  {
    var qs := RemoveAt(ps, k);
    forall i | 0 <= i < |qs| ensures !SameMask(qs[i], user, host) {
      if i < k {
        assert !SameMask(ps[i], user, host);
      } else {
        assert !SameMask(ps[k], ps[i + 1].user, ps[i + 1].host);
      }
    }
    IndexIs(qs, user, host, |qs|);
  }

  lemma KeptWithout(ps: seq<Pending>, k: nat, user: string, host: string)
    requires k < |ps| && IndexOf(ps, user, host) != k
    ensures var m := IndexOf(ps, user, host); IndexOf(RemoveAt(ps, k), user, host) == if m < k then m else m - 1
  {
    var m, qs := IndexOf(ps, user, host), RemoveAt(ps, k);
    var j := if m < k then m else m - 1;
    forall i | 0 <= i < j ensures !SameMask(qs[i], user, host) {
      assert qs[i] == ps[if i < k then i else i + 1];
    }
    IndexIs(qs, user, host, j);
  }

  lemma VotedOther(ps: seq<Pending>, r: Request, user: string, host: string)
    requires Unique(ps) && Fits(r) && !(Same(r.user, user) && Same(r.host, host))
    ensures Entry(Voted(ps, r).0, user, host) == Entry(ps, user, host)
  {
    var k := IndexOf(ps, r.user, r.host);
    if k == |ps| {
      TruncFits(r);
      EntryCons(NewPending(r), ps, user, host);
    } else {
      assert IndexOf(ps, user, host) != k;
      EntryUpdate(ps, k, SecondVote(ps[k], r), user, host);
      EntryWithout(ps, k, user, host);
    }
  }

  /** An event about something else only ages the entry. */
  lemma OtherEvent(cfg: Config, s: State, e: Event, kind: Kind, user: string, host: string)
    requires UniqueState(s) && (e.Asking? ==> Fits(e.r)) && !About(e, kind, user, host)
    ensures Entry(Lists(Step(cfg, s, e), kind), user, host) ==
            Aged(cfg, Entry(Lists(s, kind), user, host), Time(e))
  {
    var ps := Lists(s, kind);
    StepLists(cfg, s, e, kind);
    EntryUnexpired(cfg, ps, Time(e), user, host);
    if e.Asking? && e.r.kind == kind {
      UnexpiredUnique(cfg, ps, Time(e));
      VotedOther(Unexpired(cfg, ps, Time(e)), e.r, user, host);
    }
  }

  /** The entry for the mask of a request after that request, and the answer. */
  ghost function NextEntry(p: Option<Pending>, r: Request): (Option<Pending>, Outcome) {
    if p.None? then (Some(NewPending(r)), NotPlaced)
    else if Clash(p.value.vote1.oper, r.oper) then (p, AlreadyVoted)
    else if p.value.vote2.oper.user == "" then (Some(SecondVote(p.value, r)), NotPlaced)
    else if Clash(p.value.vote2.oper, r.oper) then (p, AlreadyVoted)
    else (None, Placed)
  }

  lemma VotedOwn(ps: seq<Pending>, r: Request, user: string, host: string)
    requires Unique(ps) && Fits(r) && Same(r.user, user) && Same(r.host, host)
    ensures Entry(Voted(ps, r).0, user, host) == NextEntry(Entry(ps, user, host), r).0
    ensures Voted(ps, r).1 == NextEntry(Entry(ps, user, host), r).1
    ensures Entry(ps, user, host).Some? ==> FirstReason(ps, r) == Entry(ps, user, host).value.vote1.reason
  {
    SameIndex(ps, r.user, r.host, user, host);
    var k := IndexOf(ps, user, host);
    if k == |ps| {
      TruncFits(r);
      EntryCons(NewPending(r), ps, user, host);
    } else {
      EntryUpdate(ps, k, SecondVote(ps[k], r), user, host);
      EntryWithout(ps, k, user, host);
    }
  }

  /** A request about the mask moves its entry, and is answered, as if no other mask existed. */
  lemma OwnRequest(cfg: Config, s: State, r: Request, user: string, host: string)
    requires UniqueState(s) && Fits(r) && Same(r.user, user) && Same(r.host, host) && !Covered(cfg, s, r)
    ensures var p := Aged(cfg, Entry(Lists(s, r.kind), user, host), r.now);
            && Entry(Lists(Step(cfg, s, Asking(r)), r.kind), user, host) == NextEntry(p, r).0
            && Answer(cfg, s, Asking(r)) == NextEntry(p, r).1
            && var after := Step(cfg, s, Asking(r)).bans;
               if Answer(cfg, s, Asking(r)).Placed? then
                 p.Some? && CarriedOut(cfg, s.bans, r, p.value.vote1.reason, after)
               else after == s.bans
  {
    var ps := Lists(s, r.kind);
    var us := Unexpired(cfg, ps, r.now);
    StepLists(cfg, s, Asking(r), r.kind);
    EntryUnexpired(cfg, ps, r.now, user, host);
    UnexpiredUnique(cfg, ps, r.now);
    VotedOwn(us, r, user, host);
    ExecutedIsCarriedOut(cfg, s.bans, r, FirstReason(us, r));
  }

  /** A request for a ban that is there already is not recorded; only lapsed entries go. */
  lemma CoveredChangesNothing(cfg: Config, s: State, r: Request)
    requires r.kind.Add? && cfg.find(s.bans, r.user, r.host).Some?
    ensures Answer(cfg, s, Asking(r)) == NotPlaced && OnlyLapsedGo(cfg, s, r.now, Step(cfg, s, Asking(r)))
  {
    CleanupExactly(cfg, s, r.now);
  }

  ghost predicate OnlyLapsedGo(cfg: Config, s: State, now: int, t: State) {
    && t.bans == s.bans
    && (forall p :: p in t.add <==> p in s.add && now < p.last + cfg.requestTime)
    && (forall p :: p in t.del <==> p in s.del && now < p.last + cfg.requestTime)
  }

  lemma CleanupExactly(cfg: Config, s: State, now: int)
    ensures OnlyLapsedGo(cfg, s, now, Cleanup(cfg, s, now))
  {
    forall p ensures p in Unexpired(cfg, s.add, now) <==> p in s.add && now < p.last + cfg.requestTime {
      LapsedExactly(cfg, s.add, now, p);
    }
    forall p ensures p in Unexpired(cfg, s.del, now) <==> p in s.del && now < p.last + cfg.requestTime {
      LapsedExactly(cfg, s.del, now, p);
    }
  }

  /** A vote that is turned down changes nothing except that stale entries go. */
  lemma RepeatChangesNothing(cfg: Config, s: State, r: Request)
    requires Answer(cfg, s, Asking(r)) == AlreadyVoted
    ensures OnlyLapsedGo(cfg, s, r.now, Step(cfg, s, Asking(r)))
    ensures exists p :: p in Lists(s, r.kind) && Upper(p.user) == Upper(r.user) && Upper(p.host) == Upper(r.host) &&
                        (!Apart(p.vote1.oper, r.oper) || !Apart(p.vote2.oper, r.oper))
  {
    CleanupExactly(cfg, s, r.now);
    TurnedDown(Unexpired(cfg, Lists(s, r.kind), r.now), r);
    UnexpiredFacts(cfg, Lists(s, r.kind), r.now);
  }

  lemma TurnedDown(ps: seq<Pending>, r: Request)
    requires Voted(ps, r).1 == AlreadyVoted
    ensures Voted(ps, r).0 == ps
    ensures exists p :: p in ps && Upper(p.user) == Upper(r.user) && Upper(p.host) == Upper(r.host) &&
                        (!Apart(p.vote1.oper, r.oper) || !Apart(p.vote2.oper, r.oper))
  {
    var p := ps[IndexOf(ps, r.user, r.host)];
    assert p in ps;
  }

  /** What is asked for is a removal, or a ban that is not there yet. */
  ghost predicate Open(cfg: Config, s: State, r: Request) {
    r.kind.Add? ==> cfg.find(s.bans, r.user, r.host).None?
  }

  /** The answer to a vote on an entry that has not lapsed, whatever the state. */
  lemma AnswerExactly(cfg: Config, s: State, r: Request, p: Pending)
    requires UniqueState(s) && Open(cfg, s, r) && p in Lists(s, r.kind) && r.now < p.last + cfg.requestTime
    requires Upper(p.user) == Upper(r.user) && Upper(p.host) == Upper(r.host)
    ensures Answer(cfg, s, Asking(r)) ==
            if !Apart(p.vote1.oper, r.oper) then AlreadyVoted
            else if p.vote2.oper.user != "" && !Apart(p.vote2.oper, r.oper) then AlreadyVoted
            else if p.vote2.oper.user == "" then NotPlaced else Placed
  {
    var us := Unexpired(cfg, Lists(s, r.kind), r.now);
    LapsedExactly(cfg, Lists(s, r.kind), r.now, p);
    UnexpiredUnique(cfg, Lists(s, r.kind), r.now);
    OnlyIndex(us, r, p);
  }

  lemma OnlyIndex(ps: seq<Pending>, r: Request, p: Pending)
    requires Unique(ps) && p in ps && SameMask(p, r.user, r.host)
    ensures IndexOf(ps, r.user, r.host) < |ps| && ps[IndexOf(ps, r.user, r.host)] == p
  {
    var i :| 0 <= i < |ps| && ps[i] == p;
    forall j | 0 <= j < i ensures !SameMask(ps[j], r.user, r.host) {
      assert !SameMask(ps[j], ps[i].user, ps[i].host);
    }
    IndexIs(ps, r.user, r.host, i);
  }

  /** A vote for a mask without such an entry is recorded as the first. */
  lemma FirstAnswer(cfg: Config, s: State, r: Request)
    requires Open(cfg, s, r)
    requires forall p | p in Lists(s, r.kind) && r.now < p.last + cfg.requestTime ::
               Upper(p.user) != Upper(r.user) || Upper(p.host) != Upper(r.host)
    ensures Answer(cfg, s, Asking(r)) == NotPlaced
    ensures var ps := Lists(Step(cfg, s, Asking(r)), r.kind);
            && ps != [] && ps[0].user == Trunc(r.user, PENDING_USER) && ps[0].host == Trunc(r.host, PENDING_HOST)
            && ps[0].vote1 == Vote(r.oper, Trunc(r.reason, REASONLEN), r.now) && ps[0].vote2.oper.user == ""
            && ps[0].last == r.now && ps[1..] == Unexpired(cfg, Lists(s, r.kind), r.now)
  {
    var us := Unexpired(cfg, Lists(s, r.kind), r.now);
    forall i | 0 <= i < |us| ensures !SameMask(us[i], r.user, r.host) {
      LapsedExactly(cfg, Lists(s, r.kind), r.now, us[i]);
    }
    IndexIs(us, r.user, r.host, |us|);
    StepLists(cfg, s, Asking(r), r.kind);
  }

  /** The operator has voted on the entry already. */
  ghost predicate Repeats(p: Pending, oper: Voter) {
    Clash(p.vote1.oper, oper) || (p.vote2.oper.user != "" && Clash(p.vote2.oper, oper))
  }

  /** Events before an entry lapses leave it as it is: those about other things, and repeated votes. */
  ghost predicate Quiet(cfg: Config, p: Option<Pending>, e: Event, kind: Kind, user: string, host: string) {
    && (e.Asking? ==> Fits(e.r)) && Aged(cfg, p, Time(e)) == p
    && (About(e, kind, user, host) ==> p.Some? && Repeats(p.value, e.r.oper))
  }

  ghost predicate AllQuiet(cfg: Config, p: Option<Pending>, es: seq<Event>, kind: Kind, user: string, host: string) {
    forall i | 0 <= i < |es| :: Quiet(cfg, p, es[i], kind, user, host)
  }

  /** There is one entry per mask, and p is the one for this mask. */
  ghost predicate Waiting(s: State, kind: Kind, user: string, host: string, p: Option<Pending>) {
    UniqueState(s) && Entry(Lists(s, kind), user, host) == p
  }

  ghost function StillWaiting(kind: Kind, user: string, host: string, p: Option<Pending>): State -> bool {
    (t: State) => Waiting(t, kind, user, host, p)
  }

  lemma QuietStretch(cfg: Config, ts: seq<State>, es: seq<Event>, n: nat, kind: Kind,
                     user: string, host: string, p: Option<Pending>)
    requires Run(cfg, ts, es) && n < |ts| && Waiting(ts[0], kind, user, host, p)
    requires AllQuiet(cfg, p, es, kind, user, host)
    ensures Waiting(ts[n], kind, user, host, p)
  {
    var inv := StillWaiting(kind, user, host, p);
    forall i: nat | i < n ensures KeepsAt(ts, inv, i) {
      QuietAt(cfg, ts, es, i, kind, user, host, p, inv);
    }
    Invariant(ts, inv, n);
  }

  lemma QuietAt(cfg: Config, ts: seq<State>, es: seq<Event>, i: nat, kind: Kind, user: string, host: string,
                p: Option<Pending>, inv: State -> bool)
    requires Run(cfg, ts, es) && i < |es| && AllQuiet(cfg, p, es, kind, user, host)
    requires inv == StillWaiting(kind, user, host, p)
    ensures KeepsAt(ts, inv, i)
  {
    if Waiting(ts[i], kind, user, host, p) {
      assert Leads(cfg, ts, es, i) && Quiet(cfg, p, es[i], kind, user, host);
      QuietStep(cfg, ts[i], es[i], kind, user, host, p, ts[i + 1]);
    }
  }

  lemma QuietStep(cfg: Config, s: State, e: Event, kind: Kind, user: string, host: string, p: Option<Pending>, t: State)
    requires Waiting(s, kind, user, host, p) && Quiet(cfg, p, e, kind, user, host) && t == Step(cfg, s, e)
    ensures Waiting(t, kind, user, host, p)
  {
    FittingKeepsUnique(cfg, s, e);
    if !About(e, kind, user, host) {
      OtherEvent(cfg, s, e, kind, user, host);
    } else if Covered(cfg, s, e.r) {
      StepLists(cfg, s, e, kind);
      EntryUnexpired(cfg, Lists(s, kind), Time(e), user, host);
    } else {
      OwnRequest(cfg, s, e.r, user, host);
    }
  }

  /** Requests of one kind for one mask, from operators that pairwise do not clash. */
  ghost predicate ThreeRequests(a: Request, b: Request, c: Request) {
    && SameRequest(a, b) && SameRequest(a, c) && Fits(a) && Fits(b) && Fits(c)
    && Apart(a.oper, b.oper) && Apart(a.oper, c.oper) && Apart(b.oper, c.oper)
  }

  /** The operator of the request clashes with one of these. */
  ghost predicate Known(voters: set<Voter>, r: Request) {
    exists v :: v in voters && !Apart(v, r.oper)
  }

  /** What may happen between two votes: about their mask only repeated votes, and nothing later than end. */
  ghost predicate Between(es: seq<Event>, r: Request, voters: set<Voter>, end: int) {
    forall i | 0 <= i < |es| ::
      && (es[i].Asking? ==> Fits(es[i].r)) && Time(es[i]) <= end
      && (About(es[i], r.kind, r.user, r.host) ==> Known(voters, es[i].r))
  }

  /** The operators on record after the votes a and b. */
  ghost function Voters(a: Request, b: Request): set<Voter> {
    if b.oper.user == "" then {a.oper} else {a.oper, b.oper}
  }

  ghost predicate OnRecord(voters: set<Voter>, p: Pending) {
    forall v | v in voters :: v == p.vote1.oper || (v == p.vote2.oper && v.user != "")
  }

  /** A vote that is followed by events about other masks, until the next vote comes in time. */
  ghost function VoteThen(cfg: Config, s: State, r: Request, es: seq<Event>): State {
    var t := Step(cfg, s, Asking(r));
    StateAt(cfg, t, es, |es|)
  }

  ghost function EntryIn(s: State, r: Request): Option<Pending> {
    Entry(Lists(s, r.kind), r.user, r.host)
  }

  /** A vote that leaves an entry with its own time is found again, as it was left, by the next vote. */
  lemma VoteLasts(cfg: Config, s: State, a: Request, r: Request, es: seq<Event>, voters: set<Voter>, end: int)
    requires UniqueState(s) && Fits(r) && SameRequest(a, r) && !Covered(cfg, s, r)
    requires Between(es, a, voters, end) && end < r.now + cfg.requestTime
    requires var q := NextEntry(Aged(cfg, EntryIn(s, a), r.now), r);
             q.0.Some? && q.0.value.last == r.now && OnRecord(voters, q.0.value)
    ensures UniqueState(VoteThen(cfg, s, r, es))
    ensures EntryIn(VoteThen(cfg, s, r, es), a) == NextEntry(Aged(cfg, EntryIn(s, a), r.now), r).0
    ensures Aged(cfg, EntryIn(VoteThen(cfg, s, r, es), a), end) == EntryIn(VoteThen(cfg, s, r, es), a)
  {
    var t := Step(cfg, s, Asking(r));
    FittingKeepsUnique(cfg, s, Asking(r));
    OwnRequest(cfg, s, r, a.user, a.host);
    forall i | 0 <= i < |es| ensures Quiet(cfg, EntryIn(t, a), es[i], a.kind, a.user, a.host) {
    }
    var ts := Trace(cfg, t, es);
    TraceRuns(cfg, t, es, ts);
    QuietStretch(cfg, ts, es, |es|, a.kind, a.user, a.host, EntryIn(t, a));
  }

  ghost predicate SameRequest(a: Request, b: Request) {
    a.kind == b.kind && Upper(a.user) == Upper(b.user) && Upper(a.host) == Upper(b.host)
  }

  /**
   Three such votes in time, with anything about other masks and repeated votes in between, place the ban exactly at
   the third, whichever operator comes first, second or third; the entry is gone afterwards.  They
   do so exactly when the operator of the second vote has a user name.
   */
  lemma ThirdVotePlaces(cfg: Config, s0: State, a: Request, es: seq<Event>, b: Request, fs: seq<Event>, c: Request)
    requires UniqueState(s0) && ThreeRequests(a, b, c) && Aged(cfg, EntryIn(s0, a), a.now).None?
    requires b.now < a.now + cfg.requestTime && c.now < b.now + cfg.requestTime
    requires Between(es, a, {a.oper}, b.now) && Between(fs, a, Voters(a, b), c.now)
    requires var s2 := VoteThen(cfg, s0, a, es); var s4 := VoteThen(cfg, s2, b, fs);
             Open(cfg, s0, a) && Open(cfg, s2, b) && Open(cfg, s4, c)
    ensures var s2 := VoteThen(cfg, s0, a, es); var s4 := VoteThen(cfg, s2, b, fs);
            && Answer(cfg, s0, Asking(a)) == Answer(cfg, s2, Asking(b)) == NotPlaced
            && (Answer(cfg, s4, Asking(c)) == Placed <==> b.oper.user != "")
            && (b.oper.user != "" ==>
                  && EntryIn(Step(cfg, s4, Asking(c)), a).None?
                  && CarriedOut(cfg, s4.bans, c, Trunc(a.reason, REASONLEN), Step(cfg, s4, Asking(c)).bans))
  {
    var s2 := VoteThen(cfg, s0, a, es);
    var s4 := VoteThen(cfg, s2, b, fs);
    FirstStretch(cfg, s0, a, es, b.now);
    SecondStretch(cfg, s2, a, b, fs, c.now);
    ThirdVote(cfg, s4, a, b, c);
  }

  lemma ThirdVote(cfg: Config, s: State, a: Request, b: Request, c: Request)
    requires UniqueState(s) && ThreeRequests(a, b, c) && Open(cfg, s, c)
    requires Aged(cfg, EntryIn(s, a), c.now) == Some(SecondVote(NewPending(a), b))
    ensures Answer(cfg, s, Asking(c)) == Placed <==> b.oper.user != ""
    ensures b.oper.user != "" ==>
              && EntryIn(Step(cfg, s, Asking(c)), a).None?
              && CarriedOut(cfg, s.bans, c, Trunc(a.reason, REASONLEN), Step(cfg, s, Asking(c)).bans)
  {
    OwnRequest(cfg, s, c, a.user, a.host);
  }

  lemma FirstStretch(cfg: Config, s: State, a: Request, es: seq<Event>, end: int)
    requires UniqueState(s) && Fits(a) && Aged(cfg, EntryIn(s, a), a.now).None? && !Covered(cfg, s, a)
    requires end < a.now + cfg.requestTime && Between(es, a, {a.oper}, end)
    ensures Answer(cfg, s, Asking(a)) == NotPlaced && UniqueState(VoteThen(cfg, s, a, es))
    ensures Aged(cfg, EntryIn(VoteThen(cfg, s, a, es), a), end) == Some(NewPending(a))
  {
    OwnRequest(cfg, s, a, a.user, a.host);
    VoteLasts(cfg, s, a, a, es, {a.oper}, end);
  }

  lemma SecondStretch(cfg: Config, s: State, a: Request, b: Request, fs: seq<Event>, end: int)
    requires UniqueState(s) && Fits(b) && SameRequest(a, b) && !Clash(a.oper, b.oper) && !Covered(cfg, s, b)
    requires Aged(cfg, EntryIn(s, a), b.now) == Some(NewPending(a))
    requires end < b.now + cfg.requestTime && Between(fs, a, Voters(a, b), end)
    ensures Answer(cfg, s, Asking(b)) == NotPlaced && UniqueState(VoteThen(cfg, s, b, fs))
    ensures Aged(cfg, EntryIn(VoteThen(cfg, s, b, fs), a), end) == Some(SecondVote(NewPending(a), b))
  {
    OwnRequest(cfg, s, b, a.user, a.host);
    VoteLasts(cfg, s, a, b, fs, Voters(a, b), end);
  }

  // ---------------------------------------------------------------------------------------
  // Masks that are too long
  // ---------------------------------------------------------------------------------------

  lemma SameLength(a: string, b: string)
    requires Same(a, b)
    ensures |a| == |b|
  {
    assert |Upper(a)| == |a| && |Upper(b)| == |b|;
  }

  /** A mask that is cut off as it is stored is never acted on, in any run. */
  lemma LongMaskNeverPlaced(cfg: Config, ts: seq<State>, es: seq<Event>, k: nat)
    requires Run(cfg, ts, es) && WellFormed(es) && k < |es| && ts[0].del == ts[0].add == []
    requires es[k].Asking? && !Fits(es[k].r)
    ensures Answer(cfg, ts[k], es[k]) != Placed
  {
    if Answer(cfg, ts[k], es[k]) == Placed {
      var i, j := PlacedByThreeVotes(cfg, ts, es, k);
      SameLength(Trunc(es[i].r.user, PENDING_USER), es[j].r.user);
      SameLength(es[j].r.user, es[k].r.user);
      SameLength(Trunc(es[i].r.host, PENDING_HOST), es[j].r.host);
      SameLength(es[j].r.host, es[k].r.host);
    }
  }

  const NOTHING := State([], [], [])

  /** Event k of a run from empty lists asks for what r asks for, and the server acts. */
  ghost predicate Acted(cfg: Config, ts: seq<State>, es: seq<Event>, k: nat, r: Request) {
    && Run(cfg, ts, es) && ts[0] == NOTHING && WellFormed(es) && k < |es| && es[k].Asking?
    && es[k].r.kind == r.kind && es[k].r.user == r.user && es[k].r.host == r.host
    && Answer(cfg, ts[k], es[k]) == Placed
  }

  function From(r: Request, name: string): Request {
    r.(oper := Voter(name, name, name))
  }

  lemma OneLetter(x: char, y: char)
    requires 'a' <= x < y <= 'c'
    ensures !Clash(Voter([x], [x], [x]), Voter([y], [y], [y]))
  {
    assert Upper([x]) == [x - 32 as char] && Upper([y]) == [y - 32 as char];
  }

  /** There is a run in which the server acts on a mask exactly when the mask fits. */
  lemma ActedExactlyWhenFits(cfg: Config, r: Request)
    requires cfg.requestTime > 0 && cfg.find([], r.user, r.host).None?
    ensures (exists ts: seq<State>, es: seq<Event>, k: nat :: Acted(cfg, ts, es, k, r)) <==> Fits(r)
  {
    if Fits(r) {
      ThreeInARow(cfg, r);
    } else {
      forall ts: seq<State>, es: seq<Event>, k: nat ensures !Acted(cfg, ts, es, k, r) {
        if Acted(cfg, ts, es, k, r) {
          LongMaskNeverPlaced(cfg, ts, es, k);
        }
      }
    }
  }

  lemma ThreeInARow(cfg: Config, r: Request)
    requires cfg.requestTime > 0 && cfg.find([], r.user, r.host).None? && Fits(r)
    ensures exists ts: seq<State>, es: seq<Event>, k: nat :: Acted(cfg, ts, es, k, r)
  {
    var a, b, c := From(r, "a"), From(r, "b"), From(r, "c");
    OneLetter('a', 'b');
    OneLetter('a', 'c');
    OneLetter('b', 'c');
    var es := [Asking(a), Asking(b), Asking(c)];
    var ts := Trace(cfg, NOTHING, es);
    TraceRuns(cfg, NOTHING, es, ts);
    ThirdOfRun(cfg, ts, es, a, b, c);
    assert Acted(cfg, ts, es, 2, r);
  }

  lemma ThirdOfRun(cfg: Config, ts: seq<State>, es: seq<Event>, a: Request, b: Request, c: Request)
    requires Run(cfg, ts, es) && ts[0] == NOTHING && es == [Asking(a), Asking(b), Asking(c)]
    requires ThreeRequests(a, b, c) && a.now == b.now == c.now && cfg.requestTime > 0 && b.oper.user != ""
    requires a.user == b.user == c.user && a.host == b.host == c.host && cfg.find([], a.user, a.host).None?
    ensures Answer(cfg, ts[2], es[2]) == Placed
  {
    assert Leads(cfg, ts, es, 0) && Leads(cfg, ts, es, 1);
    ThirdActs(cfg, a, b, c, ts[1], ts[2]);
  }

  lemma ThirdActs(cfg: Config, a: Request, b: Request, c: Request, s1: State, s2: State)
    requires ThreeRequests(a, b, c) && a.now == b.now == c.now && cfg.requestTime > 0 && b.oper.user != ""
    requires a.user == b.user == c.user && a.host == b.host == c.host && cfg.find([], a.user, a.host).None?
    requires s1 == Step(cfg, NOTHING, Asking(a)) && s2 == Step(cfg, s1, Asking(b))
    ensures Answer(cfg, s2, Asking(c)) == Placed
  {
    VoteAlone(cfg, NOTHING, a);
    VoteAlone(cfg, s1, b);
    OwnRequest(cfg, NOTHING, a, a.user, a.host);
    FittingKeepsUnique(cfg, NOTHING, Asking(a));
    OwnRequest(cfg, s1, b, a.user, a.host);
    ThirdVotePlaces(cfg, NOTHING, a, [], b, [], c);
  }

  lemma VoteAlone(cfg: Config, s: State, r: Request)
    ensures VoteThen(cfg, s, r, []) == Step(cfg, s, Asking(r))
  {
  }
}
