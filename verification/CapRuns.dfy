/** What capability negotiation guarantees over whole runs. */
module CapRuns {
  import opened Basics
  import opened Caps

  datatype Event =
    | Ls
    | Req(list: Option<string>)
    | Ack(list: Option<string>)
    | Clear
    | End
    | User
    | Nick

  ghost function Step(table: seq<Cap>, c: Conn, e: Event): Conn {
    match e
    case Ls => Suspended(c)
    case Req(list) => Caps.Req(table, c, list).0
    case Ack(list) => Caps.Ack(table, c, list)
    case Clear => Caps.Clear(table, c).0
    case End => Met(c, NeedCap)
    case User => Met(c, NeedUser)
    case Nick => Met(c, NeedNick)
  }

  ghost function StateAt(table: seq<Cap>, c: Conn, es: seq<Event>, n: nat): Conn
    requires n <= |es|
  {
    if n == 0 then c else Step(table, StateAt(table, c, es, n - 1), es[n - 1])
  }

  const START := Conn({}, {}, {NeedUser, NeedNick}, true)

  // ---------------------------------------------------------------------------------------
  // One request
  // ---------------------------------------------------------------------------------------

  /** A request is granted whole or leaves both sets alone. */
  lemma AllOrNothing(table: seq<Cap>, c: Conn, list: Option<string>)
    ensures Caps.Req(table, c, list).1.Nak? ==>
              Caps.Req(table, c, list).0.client == c.client && Caps.Req(table, c, list).0.active == c.active
    ensures Caps.Req(table, c, list).1.Nak? <==> exists m :: m in MentionsOf(table, list) && !Allowed(table, m)
  {
    var ms := MentionsOf(table, list);
    if !AllAllowed(table, ms) {
      var i :| 0 <= i < |ms| && !Allowed(table, ms[i]);
      assert ms[i] in ms;
    }
  }

  /** The new set is the old one, overridden by the last mention of each name. */
  ghost predicate Overridden(ms: seq<Mention>, c: nat, before: bool, after: bool) {
    after == if Said(ms, c).Some? then Said(ms, c).value else before
  }

  lemma RequestOverrides(table: seq<Cap>, c: Conn, list: Option<string>, k: nat)
    requires k < |table| && !Caps.Req(table, c, list).1.Nak?
    ensures var ms, d := MentionsOf(table, list), Caps.Req(table, c, list).0;
            && Overridden(ms, k, k in c.client, k in d.client)
            && (if table[k].proto then k in d.active <==> k in c.active
                else Overridden(ms, k, k in c.active, k in d.active))
    ensures var ms, r := MentionsOf(table, list), Caps.Req(table, c, list).1;
            r.Listing? && r.add.Some? && r.rem.Some? &&
            (k in r.add.value <==> Said(ms, k) == Some(true)) && (k in r.rem.value <==> Said(ms, k) == Some(false))
  {
  }

  /** Said is indeed the last mention. */
  lemma {:induction false} SaidIsLast(ms: seq<Mention>, c: nat, i: nat)
    requires i < |ms| && ms[i].cap == Some(c) && forall j | i < j < |ms| :: ms[j].cap != Some(c)
    ensures Said(ms, c) == Some(!ms[i].neg)
  {
    if i < |ms| - 1 {
      SaidIsLast(ms[..|ms| - 1], c, i);
    }
  }

  lemma {:induction false} SaidNever(ms: seq<Mention>, c: nat)
    ensures Said(ms, c).None? <==> forall j | 0 <= j < |ms| :: ms[j].cap != Some(c)
  {
    if ms != [] {
      SaidNever(ms[..|ms| - 1], c);
    }
  }

  // ---------------------------------------------------------------------------------------
  // What a client gets for what it spells out
  // ---------------------------------------------------------------------------------------

  /** The element names this capability, upper and lower case being the same. */
  ghost predicate Means(table: seq<Cap>, e: Element, k: nat) {
    k < |table| && Lower(table[k].name) == Lower(e.name)
  }

  /** An unknown name, a prohibited capability to be added, or a sticky one to be removed. */
  ghost predicate Refused(table: seq<Cap>, e: Element) {
    || (forall k: nat :: !Means(table, e, k))
    || exists k: nat :: Means(table, e, k) && if e.neg then table[k].sticky else table[k].prohibit
  }

  /** The last element that names the capability. */
  ghost predicate LastWord(table: seq<Cap>, es: seq<Element>, k: nat, i: nat) {
    i < |es| && Means(table, es[i], k) && forall j | i < j < |es| :: !Means(table, es[j], k)
  }

  ghost predicate Unnamed(table: seq<Cap>, es: seq<Element>, k: nat) {
    forall j | 0 <= j < |es| :: !Means(table, es[j], k)
  }

  lemma MeansLookup(table: seq<Cap>, e: Element, k: nat)
    requires TableOk(table)
    ensures Means(table, e, k) <==> Lookup(table, e.name) == Some(k)
  {
    if Means(table, e, k) {
      LookupIs(table, e.name, k);
    }
  }

  lemma RefusedMention(table: seq<Cap>, e: Element)
    requires TableOk(table)
    ensures Refused(table, e) <==> !Allowed(table, Mention(Lookup(table, e.name), e.neg))
  {
    forall k: nat ensures Means(table, e, k) <==> Lookup(table, e.name) == Some(k) {
      MeansLookup(table, e, k);
    }
    var r := Lookup(table, e.name);
    assert r.Some? ==> Means(table, e, r.value);
  }

  lemma RefusedSpelled(table: seq<Cap>, list: string, es: seq<Element>)
    requires TableOk(table) && Spells(list, es)
    ensures AllAllowed(table, Mentions(table, list)) <==> forall i | 0 <= i < |es| :: !Refused(table, es[i])
  {
    var ms := Mentions(table, list);
    SpelledMentions(table, list, es);
    forall i | 0 <= i < |es| ensures Allowed(table, ms[i]) <==> !Refused(table, es[i]) {
      RefusedMention(table, es[i]);
    }
  }

  lemma SpelledSays(table: seq<Cap>, list: string, es: seq<Element>, k: nat, i: nat)
    requires TableOk(table) && Spells(list, es)
    ensures LastWord(table, es, k, i) ==> Said(Mentions(table, list), k) == Some(!es[i].neg)
    ensures Unnamed(table, es, k) ==> Said(Mentions(table, list), k) == None
  {
    var ms := Mentions(table, list);
    SpelledMentions(table, list, es);
    forall j | 0 <= j < |es| ensures ms[j].cap == Some(k) <==> Means(table, es[j], k) {
      MeansLookup(table, es[j], k);
    }
    if LastWord(table, es, k, i) {
      SaidIsLast(ms, k, i);
    }
    SaidNever(ms, k);
  }

  /** The set is as it was, but for the capabilities that are named: those are in it as the last word says. */
  ghost predicate Followed(table: seq<Cap>, es: seq<Element>, before: set<nat>, after: set<nat>) {
    && (forall k: nat, i: nat :: LastWord(table, es, k, i) ==> (k in after <==> !es[i].neg))
    && (forall k: nat :: Unnamed(table, es, k) ==> (k in after <==> k in before))
  }

  /** The same for a set in which only capabilities that need no acknowledgement move. */
  ghost predicate PlainFollowed(table: seq<Cap>, es: seq<Element>, before: set<nat>, after: set<nat>) {
    && (forall k: nat, i: nat :: LastWord(table, es, k, i) ==>
          (k in after <==> if table[k].proto then k in before else !es[i].neg))
    && (forall k: nat :: Unnamed(table, es, k) ==> (k in after <==> k in before))
  }

  /** The capabilities whose last word is to remove them. */
  ghost predicate Removed(table: seq<Cap>, es: seq<Element>, rem: set<nat>) {
    && (forall k: nat, i: nat :: LastWord(table, es, k, i) ==> (k in rem <==> es[i].neg))
    && (forall k: nat :: Unnamed(table, es, k) ==> k !in rem)
  }

  /** The whole of what was asked for is acknowledged and done. */
  ghost predicate Granted(table: seq<Cap>, es: seq<Element>, c: Conn, d: Conn, r: Reply) {
    && r.Listing? && r.subcmd == "ACK" && r.add.Some? && r.rem.Some?
    && Followed(table, es, {}, r.add.value) && Removed(table, es, r.rem.value)
    && Followed(table, es, c.client, d.client) && PlainFollowed(table, es, c.active, d.active)
  }

  /**
   A request is refused exactly when an element has an unknown name, adds what is prohibited or
   removes what is sticky.  Otherwise it is acknowledged, and every capability that it names is in
   the client set, and in the reply, as the last element that names it says.
   */
  lemma RequestSpelled(table: seq<Cap>, c: Conn, list: string, es: seq<Element>, d: Conn, r: Reply)
    requires TableOk(table) && Spells(list, es) && (d, r) == Caps.Req(table, c, Some(list))
    ensures d.unknown == c.unknown && d.needs == if c.unknown then c.needs + {NeedCap} else c.needs
    ensures if exists i :: 0 <= i < |es| && Refused(table, es[i]) then
              r == Nak(list) && d.client == c.client && d.active == c.active
            else Granted(table, es, c, d, r)
  {
    RefusedSpelled(table, list, es);
    if AllAllowed(table, Mentions(table, list)) {
      RequestGranted(table, c, list, es, d, r);
    }
  }

  lemma RequestGranted(table: seq<Cap>, c: Conn, list: string, es: seq<Element>, d: Conn, r: Reply)
    requires TableOk(table) && Spells(list, es) && (d, r) == Caps.Req(table, c, Some(list))
    requires AllAllowed(table, Mentions(table, list))
    ensures Granted(table, es, c, d, r)
  {
    var ms := Mentions(table, list);
    forall k: nat, i: nat ensures SaidAs(table, es, ms, k, i) {
      SpelledSays(table, list, es, k, i);
    }
    Follows(table, es, ms, c, d);
  }

  ghost predicate SaidAs(table: seq<Cap>, es: seq<Element>, ms: seq<Mention>, k: nat, i: nat) {
    && (LastWord(table, es, k, i) ==> Said(ms, k) == Some(!es[i].neg))
    && (Unnamed(table, es, k) ==> Said(ms, k) == None)
  }

  lemma Follows(table: seq<Cap>, es: seq<Element>, ms: seq<Mention>, c: Conn, d: Conn)
    requires forall k: nat, i: nat :: SaidAs(table, es, ms, k, i)
    requires var add, rem := Asked(table, ms, true), Asked(table, ms, false);
             && d.client == c.client - rem + add
             && d.active == c.active - rem * Plain(table) + add * Plain(table)
    ensures Followed(table, es, {}, Asked(table, ms, true)) && Removed(table, es, Asked(table, ms, false))
    ensures Followed(table, es, c.client, d.client) && PlainFollowed(table, es, c.active, d.active)
  {
    forall k: nat ensures Unnamed(table, es, k) ==> Said(ms, k) == None {
      assert SaidAs(table, es, ms, k, 0);
    }
    forall k: nat, i: nat | LastWord(table, es, k, i) ensures k < |table| && Said(ms, k) == Some(!es[i].neg) {
      assert SaidAs(table, es, ms, k, i);
    }
  }

  /** The client names the capability with this sign. */
  ghost predicate Names(table: seq<Cap>, es: seq<Element>, k: nat, neg: bool) {
    exists i :: 0 <= i < |es| && Means(table, es[i], k) && es[i].neg == neg
  }

  /** CAP ACK activates what it names and the client has, and deactivates what it gives up and the client lacks. */
  lemma AckSpelled(table: seq<Cap>, c: Conn, list: string, es: seq<Element>, k: nat)
    requires TableOk(table) && Spells(list, es)
    ensures var d := Caps.Ack(table, c, Some(list));
            && d.client == c.client && d.needs == c.needs && d.unknown == c.unknown
            && (k in d.active <==> if k in c.client then k in c.active || Names(table, es, k, false)
                                   else k in c.active && !Names(table, es, k, true))
  {
    NamedSpelled(table, list, es, k, false);
    NamedSpelled(table, list, es, k, true);
  }

  lemma NamedSpelled(table: seq<Cap>, list: string, es: seq<Element>, k: nat, neg: bool)
    requires TableOk(table) && Spells(list, es)
    ensures k in Named(table, Mentions(table, list), neg) <==> Names(table, es, k, neg)
  {
    var ms := Mentions(table, list);
    SpelledMentions(table, list, es);
    forall j | 0 <= j < |es| ensures ms[j].cap == Some(k) <==> Means(table, es[j], k) {
      MeansLookup(table, es[j], k);
    }
    if Mention(Some(k), neg) in ms {
      var i :| 0 <= i < |ms| && ms[i] == Mention(Some(k), neg);
      assert Means(table, es[i], k);
    }
    if i :| 0 <= i < |es| && Means(table, es[i], k) && es[i].neg == neg {
      assert ms[i] == Mention(Some(k), neg);
    }
  }

  /** CAP CLEAR takes away, and reports, everything the client has that is not sticky. */
  lemma ClearExactly(table: seq<Cap>, c: Conn, k: nat)
    requires k < |table|
    ensures var q := Caps.Clear(table, c); var d, r := q.0, q.1;
            && d.needs == c.needs && d.unknown == c.unknown
            && (k in d.client <==> k in c.client && table[k].sticky)
            && (k in d.active <==> k in c.active && (table[k].proto || table[k].sticky || k !in c.client))
            && r.Listing? && r.subcmd == "ACK" && r.add.None? && r.rem.Some?
            && (k in r.rem.value <==> k in c.client && !table[k].sticky)
  {
  }

  // ---------------------------------------------------------------------------------------
  // The client set as the history of the run
  // ---------------------------------------------------------------------------------------

  /** What an event says about a capability, whatever the state: a request granted whole, or a clear. */
  ghost function Says(table: seq<Cap>, e: Event, k: nat): Option<bool>
    requires k < |table|
  {
    match e
    case Req(list) => if AllAllowed(table, MentionsOf(table, list)) then Said(MentionsOf(table, list), k) else None
    case Clear => if table[k].sticky then None else Some(false)
    case _ => None
  }

  lemma StepClient(table: seq<Cap>, c: Conn, e: Event, k: nat)
    requires k < |table|
    ensures var before, after := k in c.client, k in Step(table, c, e).client;
            after == if Says(table, e, k).Some? then Says(table, e, k).value else before
  {
    if e.Req? {
      AllOrNothing(table, c, e.list);
      if AllAllowed(table, MentionsOf(table, e.list)) {
        RequestOverrides(table, c, e.list, k);
      }
    }
  }

  ghost function Adds(table: seq<Cap>, es: seq<Event>, k: nat): nat -> bool
    requires k < |table|
  {
    (i: nat) => i < |es| && Says(table, es[i], k) == Some(true)
  }

  ghost function Removes(table: seq<Cap>, es: seq<Event>, k: nat): nat -> bool
    requires k < |table|
  {
    (i: nat) => i < |es| && Says(table, es[i], k) == Some(false)
  }

  lemma NextClient(table: seq<Cap>, es: seq<Event>, n: nat, k: nat, c: Conn, d: Conn)
    requires n < |es| && k < |table| && d == Step(table, c, es[n])
    ensures k in d.client <==> Adds(table, es, k)(n) || (k in c.client && !Removes(table, es, k)(n))
  {
    StepClient(table, c, es[n], k);
  }

  /** In every run the client set holds what was added, and not taken away since. */
  lemma {:induction false} ClientSetExactly(table: seq<Cap>, es: seq<Event>, n: nat, k: nat)
    requires n <= |es| && k < |table|
    ensures k in StateAt(table, START, es, n).client <==> Stands(Adds(table, es, k), Removes(table, es, k), n)
  {
    if n > 0 {
      var c := StateAt(table, START, es, n - 1);
      ClientSetExactly(table, es, n - 1, k);
      NextClient(table, es, n - 1, k, c, StateAt(table, START, es, n));
      StandsNext(Adds(table, es, k), Removes(table, es, k), n - 1);
    }
  }

  // ---------------------------------------------------------------------------------------
  // Invariants
  // ---------------------------------------------------------------------------------------

  /** The two sets agree on everything that needs no acknowledgement. */
  ghost predicate Agree(table: seq<Cap>, c: Conn) {
    c.client * Plain(table) == c.active * Plain(table)
  }

  lemma StepAgrees(table: seq<Cap>, c: Conn, e: Event)
    requires Agree(table, c)
    ensures Agree(table, Step(table, c, e))
  {
    var d := Step(table, c, e);
    forall k: nat | k in Plain(table) ensures k in d.client <==> k in d.active {
      assert k in c.client * Plain(table) <==> k in c.active * Plain(table);
    }
  }

  lemma {:induction false} RunAgrees(table: seq<Cap>, c: Conn, es: seq<Event>, n: nat)
    requires Agree(table, c) && n <= |es|
    ensures Agree(table, StateAt(table, c, es, n))
  {
    if n > 0 {
      RunAgrees(table, c, es, n - 1);
      StepAgrees(table, StateAt(table, c, es, n - 1), es[n - 1]);
    }
  }

  /** In every run from the start the two sets agree. */
  lemma SetsAgree(table: seq<Cap>, es: seq<Event>, n: nat)
    requires n <= |es|
    ensures Agree(table, StateAt(table, START, es, n))
  {
    RunAgrees(table, START, es, n);
  }

  lemma {:induction false} SaidAllowed(table: seq<Cap>, ms: seq<Mention>, k: nat)
    requires AllAllowed(table, ms) && k < |table|
    ensures table[k].sticky ==> Said(ms, k) != Some(false)
    ensures table[k].prohibit ==> Said(ms, k) != Some(true)
  {
    if ms != [] {
      assert Allowed(table, ms[|ms| - 1]);
      SaidAllowed(table, ms[..|ms| - 1], k);
    }
  }

  lemma StepSticky(table: seq<Cap>, c: Conn, e: Event, k: nat)
    requires k < |table|
    ensures table[k].sticky && k in c.client ==> k in Step(table, c, e).client
    ensures table[k].prohibit && k !in c.client ==> k !in Step(table, c, e).client
  {
    if e.Req? && AllAllowed(table, MentionsOf(table, e.list)) {
      SaidAllowed(table, MentionsOf(table, e.list), k);
    }
  }

  /** A sticky capability never leaves the client set again. */
  lemma {:induction false} StickyStays(table: seq<Cap>, c: Conn, es: seq<Event>, m: nat, n: nat, k: nat)
    requires m <= n <= |es| && k < |table| && table[k].sticky && k in StateAt(table, c, es, m).client
    ensures k in StateAt(table, c, es, n).client
  {
    if m < n {
      StickyStays(table, c, es, m, n - 1, k);
      StepSticky(table, StateAt(table, c, es, n - 1), es[n - 1], k);
    }
  }

  /** A prohibited capability never enters it. */
  lemma {:induction false} ProhibitedStaysOut(table: seq<Cap>, es: seq<Event>, n: nat, k: nat)
    requires n <= |es| && k < |table| && table[k].prohibit
    ensures k !in StateAt(table, START, es, n).client
  {
    if n > 0 {
      ProhibitedStaysOut(table, es, n - 1, k);
      StepSticky(table, StateAt(table, START, es, n - 1), es[n - 1], k);
    }
  }

  /** The client acknowledged this capability while it had it. */
  ghost predicate AckedAt(table: seq<Cap>, es: seq<Event>, i: nat, k: nat) {
    && i < |es| && es[i].Ack? && Mention(Some(k), false) in MentionsOf(table, es[i].list)
    && k in StateAt(table, START, es, i).client
  }

  /** The client gave up this capability while it did not have it. */
  ghost predicate DroppedAt(table: seq<Cap>, es: seq<Event>, i: nat, k: nat) {
    && i < |es| && es[i].Ack? && Mention(Some(k), true) in MentionsOf(table, es[i].list)
    && k !in StateAt(table, START, es, i).client
  }

  ghost function Acks(table: seq<Cap>, es: seq<Event>, k: nat): nat -> bool {
    (i: nat) => AckedAt(table, es, i, k)
  }

  ghost function Drops(table: seq<Cap>, es: seq<Event>, k: nat): nat -> bool {
    (i: nat) => DroppedAt(table, es, i, k)
  }

  lemma StepProto(table: seq<Cap>, es: seq<Event>, n: nat, k: nat, c: Conn)
    requires n < |es| && k < |table| && table[k].proto && c == StateAt(table, START, es, n)
    ensures k in Step(table, c, es[n]).active <==>
            AckedAt(table, es, n, k) || (k in c.active && !DroppedAt(table, es, n, k))
  {
    assert k !in Plain(table);
  }

  /**
   A capability that needs acknowledgement is active exactly when the client acknowledged it while it
   had it, and has not given it up since while it did not have it; requests and clears do not matter.
   */
  lemma {:induction false} ProtoActiveExactly(table: seq<Cap>, es: seq<Event>, n: nat, k: nat)
    requires n <= |es| && k < |table| && table[k].proto
    ensures k in StateAt(table, START, es, n).active <==> Stands(Acks(table, es, k), Drops(table, es, k), n)
  {
    if n > 0 {
      ProtoActiveExactly(table, es, n - 1, k);
      StepProto(table, es, n - 1, k, StateAt(table, START, es, n - 1));
      StandsNext(Acks(table, es, k), Drops(table, es, k), n - 1);
    }
  }

  // ---------------------------------------------------------------------------------------
  // Registration
  // ---------------------------------------------------------------------------------------

  ghost predicate Happened(es: seq<Event>, n: nat, e: Event) {
    n <= |es| && e in es[..n]
  }

  ghost function Begins(es: seq<Event>): nat -> bool {
    (i: nat) => i < |es| && (es[i].Ls? || es[i].Req?)
  }

  ghost function Ends(es: seq<Event>): nat -> bool {
    (i: nat) => i < |es| && es[i].End?
  }

  /** USER and NICK have come, and every negotiation begun has ended. */
  ghost predicate Complete(es: seq<Event>, n: nat) {
    Happened(es, n, User) && Happened(es, n, Nick) && !Stands(Begins(es), Ends(es), n)
  }

  lemma HappenedNext(es: seq<Event>, n: nat, e: Event)
    requires n < |es|
    ensures Happened(es, n + 1, e) <==> Happened(es, n, e) || es[n] == e
  {
    assert es[..n + 1] == es[..n] + [es[n]];
  }

  /** What an unregistered connection waits for is what has not happened yet. */
  ghost predicate Waits(es: seq<Event>, n: nat, c: Conn) {
    && (NeedUser in c.needs <==> !Happened(es, n, User)) && (NeedNick in c.needs <==> !Happened(es, n, Nick))
    && (NeedCap in c.needs <==> Stands(Begins(es), Ends(es), n))
  }

  lemma NoNeed(s: set<Need>)
    ensures s == {} <==> NeedUser !in s && NeedNick !in s && NeedCap !in s
  {
    assert forall x | x in s :: x == NeedUser || x == NeedNick || x == NeedCap;
  }

  lemma NothingNeeded(es: seq<Event>, n: nat, c: Conn)
    requires Waits(es, n, c)
    ensures c.needs == {} <==> Complete(es, n)
  {
    NoNeed(c.needs);
  }

  lemma WaitsNext(table: seq<Cap>, es: seq<Event>, n: nat, c: Conn)
    requires n < |es| && c.unknown && Waits(es, n, c) && c.needs != {}
    ensures var d := Step(table, c, es[n]); Waits(es, n + 1, d) && (d.unknown <==> d.needs != {})
  {
    StandsNext(Begins(es), Ends(es), n);
    HappenedNext(es, n, User);
    HappenedNext(es, n, Nick);
  }

  lemma {:induction false} RunWaits(table: seq<Cap>, es: seq<Event>, n: nat, c: Conn)
    requires n <= |es| && c == StateAt(table, START, es, n)
    ensures c.unknown <==> forall m | 0 <= m <= n :: !Complete(es, m)
    ensures c.unknown ==> Waits(es, n, c) && c.needs != {}
  {
    if n == 0 {
      assert es[..0] == [];
    } else {
      var b := StateAt(table, START, es, n - 1);
      RunWaits(table, es, n - 1, b);
      if b.unknown {
        WaitsNext(table, es, n - 1, b);
        NothingNeeded(es, n, c);
      }
    }
  }

  /**
   A client is registered exactly when there was a moment at which USER and NICK had come and every
   negotiation that LS or REQ had begun was ended by a later CAP END.
   */
  lemma RegisteredExactly(table: seq<Cap>, es: seq<Event>, n: nat)
    requires n <= |es|
    ensures !StateAt(table, START, es, n).unknown <==> exists m :: 0 <= m <= n && Complete(es, m)
  {
    RunWaits(table, es, n, StateAt(table, START, es, n));
  }

  ghost predicate Negotiating(c: Conn) {
    c.unknown && NeedCap in c.needs
  }

  /** LS and REQ begin to negotiate, and only CAP END ends it. */
  lemma NegotiationStep(table: seq<Cap>, c: Conn, e: Event)
    requires c.unknown && (e.Ls? || e.Req? || (Negotiating(c) && !e.End?))
    ensures Negotiating(Step(table, c, e))
  {
    if e.User? {
      assert NeedCap in c.needs - {NeedUser};
    } else if e.Nick? {
      assert NeedCap in c.needs - {NeedNick};
    }
  }

  /** From the first LS or REQ on, a client stays unregistered until CAP END. */
  lemma {:induction false} NegotiationSuspends(table: seq<Cap>, c: Conn, es: seq<Event>, n: nat)
    requires 0 < n <= |es| && c.unknown && (es[0].Ls? || es[0].Req?)
    requires forall i | 0 <= i < n :: !es[i].End?
    ensures Negotiating(StateAt(table, c, es, n))
  {
    if n == 1 {
      assert StateAt(table, c, es, 0) == c;
    } else {
      NegotiationSuspends(table, c, es, n - 1);
    }
    NegotiationStep(table, StateAt(table, c, es, n - 1), es[n - 1]);
  }
}
