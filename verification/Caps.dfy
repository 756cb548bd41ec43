/**
 Capability negotiation (IRCv3): the scanner for capability lists, the search in the sorted table,
 and the subcommands of CAP.

 The table of capabilities is arbitrary, so that every flag matters; a capability is named by its
 index, and a bit mask of capabilities is a set of indices.  Replies are recorded in order.
 */
module Caps {
  import opened Basics
  import opened IrcStrings

  datatype Cap = Cap(name: string, hidden: bool, prohibit: bool, proto: bool, sticky: bool)

  ghost function Lower(s: string): string {
    seq(|s|, i requires 0 <= i < |s| => ToLower(s[i]))
  }

  /** Names hold no blanks and no control characters. */
  ghost predicate NameOk(name: string) {
    name != "" && forall i | 0 <= i < |name| :: name[i] > ' '
  }

  ghost predicate TableOk(table: seq<Cap>) {
    && (forall i | 0 <= i < |table| :: NameOk(table[i].name))
    && (forall i, j | 0 <= i < j < |table| :: StrCmp(Lower(table[i].name), Lower(table[j].name)) < 0)
  }

  /** The capability with this name, upper and lower case being the same. */
  ghost function Lookup(table: seq<Cap>, name: string): (r: Option<nat>)
    ensures r.Some? ==> r.value < |table| && Lower(table[r.value].name) == Lower(name)
    ensures r.None? ==> forall i | 0 <= i < |table| :: Lower(table[i].name) != Lower(name)
  {
    if k: nat :| k < |table| && Lower(table[k].name) == Lower(name) then Some(k) else None
  }

  // ---------------------------------------------------------------------------------------
  // The scanner
  // ---------------------------------------------------------------------------------------

  ghost function Skip(s: string): string {
    if s != "" && IsSpace(s[0]) then Skip(s[1..]) else s
  }

  ghost function Word(s: string): string {
    if s == "" || IsSpace(s[0]) then "" else [s[0]] + Word(s[1..])
  }

  ghost function After(s: string): string {
    if s == "" || IsSpace(s[0]) then s else After(s[1..])
  }

  lemma {:induction false} WordFacts(s: string)
    ensures Word(s) + After(s) == s
    ensures forall i | 0 <= i < |Word(s)| :: !IsSpace(Word(s)[i])
    ensures After(s) == "" || IsSpace(After(s)[0])
  {
    if s != "" && !IsSpace(s[0]) {
      WordFacts(s[1..]);
      assert s == [s[0]] + s[1..];
    }
  }

  lemma {:induction false} SkipShorter(s: string)
    ensures |Skip(s)| <= |s| && (Skip(s) == "" || !IsSpace(Skip(s)[0]))
    ensures s != "" && IsSpace(s[0]) ==> |Skip(s)| < |s|
  {
    if s != "" && IsSpace(s[0]) {
      SkipShorter(s[1..]);
    }
  }

  function CharAt(s: string, i: nat): char {
    if i < |s| then s[i] else EOS
  }

  lemma WordAt(key: string, i: nat)
    requires i <= |Word(key)|
    ensures i <= |key|
    ensures i < |Word(key)| ==> i < |key| && key[i] == Word(key)[i] && !IsSpace(key[i])
    ensures i == |Word(key)| ==> i == |key| || IsSpace(key[i])
  {
    WordFacts(key);
    if i == |Word(key)| < |key| {
      assert key[i] == After(key)[0];
    }
  }

  lemma {:induction false} StrCmpSuffix(a: string, b: string, i: nat)
    requires i <= |a| && i <= |b| && a[..i] == b[..i]
    ensures StrCmp(a, b) == StrCmp(a[i..], b[i..])
  {
    if i > 0 {
      assert a[0] == a[..i][0] == b[0];
      assert a[1..][..i - 1] == a[..i][1..] == b[1..][..i - 1];
      StrCmpSuffix(a[1..], b[1..], i - 1);
      assert a[1..][i - 1..] == a[i..] && b[1..][i - 1..] == b[i..];
    } else {
      assert a[0..] == a && b[0..] == b;
    }
  }

  /** The first difference decides. */
  lemma FirstDifference(a: string, b: string, i: nat)
    requires i <= |a| && i <= |b| && a[..i] == b[..i]
    ensures i == |a| && i == |b| ==> StrCmp(a, b) == 0
    ensures i == |a| && i < |b| ==> StrCmp(a, b) == -1
    ensures i < |a| && i == |b| ==> StrCmp(a, b) == 1
    ensures i < |a| && i < |b| && a[i] != b[i] ==> StrCmp(a, b) == if a[i] < b[i] then -1 else 1
  {
    StrCmpSuffix(a, b, i);
    assert i < |a| ==> a[i..][0] == a[i];
    assert i < |b| ==> b[i..][0] == b[i];
  }

  /** capab_search: the order of the word at the head of key and a name, up to case. */
  method CapabSearch(key: string, name: string) returns (r: int)
    requires CString(key) && NameOk(name)
    ensures r < 0 <==> StrCmp(Lower(Word(key)), Lower(name)) < 0
    ensures r > 0 <==> StrCmp(Lower(Word(key)), Lower(name)) > 0
  {
    ghost var w, n := Lower(Word(key)), Lower(name);
    var i := 0;
    WordAt(key, 0);
    while ToLower(CharAt(key, i)) == ToLower(CharAt(name, i))
      invariant i <= |w| && i <= |n| && w[..i] == n[..i]
      decreases |w| - i
    {
      WordAt(key, i);
      if CharAt(key, i) == EOS {
        FirstDifference(w, n, i);
        return 0;
      }
      assert i < |name| && i < |w|;
      assert w[..i + 1] == w[..i] + [w[i]] && n[..i + 1] == n[..i] + [n[i]];
      i := i + 1;
    }
    WordAt(key, i);
    FirstDifference(w, n, i);
    if IsSpace(CharAt(key, i)) && CharAt(name, i) == EOS {
      return 0;
    }
    return ToLower(CharAt(key, i)) as int - ToLower(CharAt(name, i)) as int;
  }

  /** bsearch over the table. */
  method Bsearch(table: seq<Cap>, key: string) returns (r: Option<nat>)
    requires TableOk(table) && CString(key)
    ensures r == Lookup(table, Word(key))
  {
    ghost var w := Lower(Word(key));
    var lo, hi := 0, |table|;
    while lo < hi
      invariant lo <= hi <= |table|
      invariant forall i | 0 <= i < lo :: StrCmp(Lower(table[i].name), w) < 0
      invariant forall i | hi <= i < |table| :: StrCmp(w, Lower(table[i].name)) < 0
    {
      var mid := (lo + hi) / 2;
      var c := CapabSearch(key, table[mid].name);
      StrCmpZero(w, Lower(table[mid].name));
      if c < 0 {
        AllAbove(table, mid, w);
        hi := mid;
      } else if c > 0 {
        AllBelow(table, mid, w);
        lo := mid + 1;
      } else {
        LookupIs(table, Word(key), mid);
        return Some(mid);
      }
    }
    LookupNone(table, Word(key), lo);
    return None;
  }

  lemma AllAbove(table: seq<Cap>, mid: nat, w: string)
    requires TableOk(table) && mid < |table| && StrCmp(w, Lower(table[mid].name)) < 0
    ensures forall i | mid <= i < |table| :: StrCmp(w, Lower(table[i].name)) < 0
  {
    forall i | mid < i < |table| ensures StrCmp(w, Lower(table[i].name)) < 0 {
      StrCmpTransitive(w, Lower(table[mid].name), Lower(table[i].name));
    }
  }

  lemma AllBelow(table: seq<Cap>, mid: nat, w: string)
    requires TableOk(table) && mid < |table| && StrCmp(Lower(table[mid].name), w) < 0
    ensures forall i | 0 <= i <= mid :: StrCmp(Lower(table[i].name), w) < 0
  {
    forall i | 0 <= i < mid ensures StrCmp(Lower(table[i].name), w) < 0 {
      StrCmpTransitive(Lower(table[i].name), Lower(table[mid].name), w);
    }
  }

  lemma LookupIs(table: seq<Cap>, name: string, k: nat)
    requires TableOk(table) && k < |table| && Lower(table[k].name) == Lower(name)
    ensures Lookup(table, name) == Some(k)
  {
    var r := Lookup(table, name);
    assert r.Some?;
    StrCmpZero(Lower(name), Lower(name));
  }

  lemma LookupNone(table: seq<Cap>, name: string, k: nat)
    requires k <= |table|
    requires forall i | 0 <= i < k :: StrCmp(Lower(table[i].name), Lower(name)) < 0
    requires forall i | k <= i < |table| :: StrCmp(Lower(name), Lower(table[i].name)) < 0
    ensures Lookup(table, name) == None
  {
    StrCmpZero(Lower(name), Lower(name));
  }

  // ---------------------------------------------------------------------------------------
  // find_cap
  // ---------------------------------------------------------------------------------------

  /** One element of a list: a capability, if its name is known, and whether it is to be removed. */
  datatype Mention = Mention(cap: Option<nat>, neg: bool)

  ghost predicate Negative(s: string) {
    Skip(s) != "" && Skip(s)[0] == '-'
  }

  /** The list from the name in its first element on. */
  ghost function FromName(s: string): string {
    if Negative(s) then Skip(s)[1..] else Skip(s)
  }

  ghost function First(table: seq<Cap>, s: string): Mention {
    Mention(Lookup(table, Word(FromName(s))), Negative(s))
  }

  ghost function Rest(s: string): string {
    Skip(After(FromName(s)))
  }

  lemma RestShorter(s: string)
    ensures |FromName(s)| <= |s| && |Rest(s)| <= |s|
    ensures s != "" ==> |Rest(s)| < |s|
  {
    SkipShorter(s);
    WordFacts(FromName(s));
    SkipShorter(After(FromName(s)));
  }

  ghost function Mentions(table: seq<Cap>, s: string): seq<Mention>
    decreases |s|
  {
    RestShorter(s);
    [First(table, s)] + if Rest(s) == "" then [] else Mentions(table, Rest(s))
  }

  /** The mentions in a list that may be missing altogether. */
  ghost function MentionsOf(table: seq<Cap>, list: Option<string>): seq<Mention> {
    if list.None? then [] else Mentions(table, list.value)
  }

  method SkipSpaces(s: string, p: nat) returns (q: nat)
    requires p <= |s|
    ensures p <= q <= |s| && s[q..] == Skip(s[p..])
  {
    q := p;
    while q < |s| && IsSpace(s[q])
      invariant p <= q <= |s| && Skip(s[p..]) == Skip(s[q..])
    {
      assert s[q..][1..] == s[q + 1..];
      q := q + 1;
    }
  }

  method SkipWord(s: string, p: nat) returns (q: nat)
    requires p <= |s|
    ensures p <= q <= |s| && s[q..] == After(s[p..])
  {
    q := p;
    while q < |s| && !IsSpace(s[q])
      invariant p <= q <= |s| && After(s[p..]) == After(s[q..])
    {
      assert s[q..][1..] == s[q + 1..];
      q := q + 1;
    }
  }

  /** A name that is found is as long as the word. */
  lemma NameLength(s: string, p: nat, name: string)
    requires p <= |s| && |name| == |Word(s[p..])|
    ensures p + |name| <= |s| && s[p + |name|..] == After(s[p..])
  {
    WordFacts(s[p..]);
    assert s[p + |name|..] == s[p..][|name|..];
  }

  /** The search for one word, and the end of it. */
  method FindWord(table: seq<Cap>, s: string, p: nat) returns (cap: Option<nat>, q: nat)
    requires TableOk(table) && CString(s) && p <= |s|
    ensures cap == Lookup(table, Word(s[p..]))
    ensures p <= q <= |s| && s[q..] == After(s[p..])
  {
    cap := Bsearch(table, s[p..]);
    if cap.None? {
      q := SkipWord(s, p);
    } else {
      NameLength(s, p, table[cap.value].name);
      q := p + |table[cap.value].name|;
    }
  }

  /** find_cap on the list from p on; it advances on every list that is not empty. */
  method FindCap(table: seq<Cap>, s: string, p: nat) returns (cap: Option<nat>, neg: bool, next: Option<nat>)
    requires TableOk(table) && CString(s) && p <= |s|
    ensures Mention(cap, neg) == First(table, s[p..])
    ensures next.None? ==> Rest(s[p..]) == ""
    ensures next.Some? ==> p < next.value < |s| && s[next.value..] == Rest(s[p..])
  {
    RestShorter(s[p..]);
    var q := SkipSpaces(s, p);
    neg := q < |s| && s[q] == '-';
    if neg {
      assert s[q..][1..] == s[q + 1..];
      q := q + 1;
    }
    assert s[q..] == FromName(s[p..]);
    cap := None;
    if q < |s| {
      cap, q := FindWord(table, s, q);
      q := SkipSpaces(s, q);
    } else {
      EmptyName(table);
    }
    next := if q < |s| then Some(q) else None;
  }

  lemma EmptyName(table: seq<Cap>)
    requires TableOk(table)
    ensures Lookup(table, Word("")) == None
  {
    assert forall i | 0 <= i < |table| :: |Lower(table[i].name)| > 0;
  }

  /** One element as a client writes it. */
  datatype Element = Element(name: string, neg: bool)

  predicate IsBlank(c: char) {
    c == ' ' || c == '\t' || c == '\n' || c as int == 11 || c as int == 12 || c == '\r'
  }

  ghost predicate Blanks(s: string) {
    forall i | 0 <= i < |s| :: IsBlank(s[i])
  }

  ghost predicate ElementOk(e: Element) {
    && e.name != "" && (forall i | 0 <= i < |e.name| :: !IsBlank(e.name[i]))
    && (e.neg || e.name[0] != '-')
  }

  /** The elements as they are written, each with the blanks behind it. */
  ghost function Written(es: seq<Element>, gaps: seq<string>): string
    requires |gaps| == |es|
  {
    if es == [] then ""
    else (if es[0].neg then "-" else "") + es[0].name + (gaps[0] + Written(es[1..], gaps[1..]))
  }

  ghost predicate GapsOk(es: seq<Element>, gaps: seq<string>) {
    && |gaps| == |es| && (forall i | 0 <= i < |es| :: ElementOk(es[i]) && Blanks(gaps[i]))
    && forall i | 0 <= i < |es| - 1 :: gaps[i] != ""
  }

  /** The list spells out these elements, at least one, with blanks between them, and perhaps around them. */
  ghost predicate Spells(list: string, es: seq<Element>) {
    es != [] && exists lead, gaps :: Blanks(lead) && GapsOk(es, gaps) && list == lead + Written(es, gaps)
  }

  lemma {:induction false} WordThen(w: string, rest: string)
    requires forall i | 0 <= i < |w| :: !IsSpace(w[i])
    requires rest == "" || IsSpace(rest[0])
    ensures Word(w + rest) == w && After(w + rest) == rest
  {
    if w == "" {
      assert w + rest == rest;
    } else {
      assert (w + rest)[1..] == w[1..] + rest;
      WordThen(w[1..], rest);
    }
  }

  lemma {:induction false} SkipBlanks(lead: string, rest: string)
    requires Blanks(lead) && (rest == "" || !IsSpace(rest[0]))
    ensures Skip(lead + rest) == rest
  {
    if lead == "" {
      assert lead + rest == rest;
    } else {
      assert (lead + rest)[1..] == lead[1..] + rest;
      SkipBlanks(lead[1..], rest);
    }
  }

  /** The scanner reads back exactly what a client spells out. */
  lemma SpelledMentions(table: seq<Cap>, list: string, es: seq<Element>)
    requires Spells(list, es)
    ensures |Mentions(table, list)| == |es|
    ensures forall i | 0 <= i < |es| :: Mentions(table, list)[i] == Mention(Lookup(table, es[i].name), es[i].neg)
  {
    var lead, gaps :| Blanks(lead) && GapsOk(es, gaps) && list == lead + Written(es, gaps);
    WrittenMentions(table, lead, es, gaps);
  }

  lemma {:induction false} WrittenMentions(table: seq<Cap>, lead: string, es: seq<Element>, gaps: seq<string>)
    requires es != [] && Blanks(lead) && GapsOk(es, gaps)
    ensures MentionsAre(table, Mentions(table, lead + Written(es, gaps)), es)
    decreases |es|
  {
    var s, rest := lead + Written(es, gaps), Written(es[1..], gaps[1..]);
    WrittenStarts(es, gaps);
    SkipBlanks(lead, Written(es, gaps));
    HeadRead(table, s, es[0], gaps[0] + rest);
    if |es| > 1 {
      WrittenStarts(es[1..], gaps[1..]);
      WrittenMentions(table, "", es[1..], gaps[1..]);
      assert "" + rest == rest;
    }
    SkipBlanks(gaps[0], rest);
    MentionsCons(table, s, es, rest);
  }

  ghost predicate MentionsAre(table: seq<Cap>, ms: seq<Mention>, es: seq<Element>) {
    |ms| == |es| && forall i | 0 <= i < |es| :: ms[i] == Mention(Lookup(table, es[i].name), es[i].neg)
  }

  lemma MentionsCons(table: seq<Cap>, s: string, es: seq<Element>, rest: string)
    requires es != [] && Rest(s) == rest && First(table, s) == Mention(Lookup(table, es[0].name), es[0].neg)
    requires if |es| == 1 then rest == "" else rest != "" && MentionsAre(table, Mentions(table, rest), es[1..])
    ensures MentionsAre(table, Mentions(table, s), es)
  {
  }

  lemma HeadRead(table: seq<Cap>, s: string, e: Element, tail: string)
    requires ElementOk(e) && (tail == "" || IsSpace(tail[0]))
    requires Skip(s) == (if e.neg then "-" else "") + e.name + tail
    ensures First(table, s) == Mention(Lookup(table, e.name), e.neg) && Rest(s) == Skip(tail)
  {
    NameThen(e, tail);
    WordThen(e.name, tail);
  }

  lemma NameThen(e: Element, tail: string)
    requires ElementOk(e)
    ensures var s := (if e.neg then "-" else "") + e.name + tail;
            && s != "" && !IsSpace(s[0]) && (s[0] == '-' <==> e.neg)
            && (if e.neg then s[1..] else s) == e.name + tail
  {
  }

  lemma WrittenStarts(es: seq<Element>, gaps: seq<string>)
    requires es != [] && GapsOk(es, gaps)
    ensures Written(es, gaps) != "" && !IsSpace(Written(es, gaps)[0])
    ensures var tail := gaps[0] + Written(es[1..], gaps[1..]); tail == "" || IsSpace(tail[0])
  {
    NameThen(es[0], gaps[0] + Written(es[1..], gaps[1..]));
    assert |es| > 1 ==> gaps[0] != "";
    assert gaps[0] != "" ==> IsBlank(gaps[0][0]);
  }

  // ---------------------------------------------------------------------------------------
  // The subcommands
  // ---------------------------------------------------------------------------------------

  datatype Need = NeedUser | NeedNick | NeedCap

  datatype Reply = Nak(list: string) | Listing(subcmd: string, add: Option<set<nat>>, rem: Option<set<nat>>)

  /** What a connection knows: the two capability sets, what registration waits for, whether it is unregistered. */
  datatype Conn = Conn(client: set<nat>, active: set<nat>, needs: set<Need>, unknown: bool)

  ghost predicate Allowed(table: seq<Cap>, m: Mention) {
    m.cap.Some? && m.cap.value < |table| &&
    if m.neg then !table[m.cap.value].sticky else !table[m.cap.value].prohibit
  }

  ghost predicate AllAllowed(table: seq<Cap>, ms: seq<Mention>) {
    forall i | 0 <= i < |ms| :: Allowed(table, ms[i])
  }

  /** What the last mention of a capability asks for. */
  ghost function Said(ms: seq<Mention>, c: nat): Option<bool> {
    if ms == [] then None
    else if ms[|ms| - 1].cap == Some(c) then Some(!ms[|ms| - 1].neg)
    else Said(ms[..|ms| - 1], c)
  }

  /** The capabilities whose last mention asks for this. */
  ghost function Asked(table: seq<Cap>, ms: seq<Mention>, on: bool): set<nat> {
    set c: nat | c < |table| && Said(ms, c) == Some(on)
  }

  /** The capabilities that need no acknowledgement by the client. */
  ghost function Plain(table: seq<Cap>): set<nat> {
    set c: nat | c < |table| && !table[c].proto
  }

  ghost function Suspended(c: Conn): Conn {
    if c.unknown then c.(needs := c.needs + {NeedCap}) else c
  }

  /** CAP REQ: all of the list or nothing. */
  ghost function Req(table: seq<Cap>, c: Conn, list: Option<string>): (Conn, Reply) {
    var ms := MentionsOf(table, list);
    var add, rem := Asked(table, ms, true), Asked(table, ms, false);
    if !AllAllowed(table, ms) then (Suspended(c), Nak(list.value))
    else
      (Suspended(c).(client := c.client - rem + add, active := c.active - rem * Plain(table) + add * Plain(table)),
       Listing("ACK", Some(add), Some(rem)))
  }

  /** The capabilities mentioned at all with this sign. */
  ghost function Named(table: seq<Cap>, ms: seq<Mention>, neg: bool): set<nat> {
    set c: nat | c < |table| && Mention(Some(c), neg) in ms
  }

  /** CAP ACK: activates what the client set holds, deactivates what it does not. */
  ghost function Ack(table: seq<Cap>, c: Conn, list: Option<string>): Conn {
    var ms := MentionsOf(table, list);
    c.(active := Acked(table, ms, c.client, c.active))
  }

  ghost function Acked(table: seq<Cap>, ms: seq<Mention>, client: set<nat>, active: set<nat>): set<nat> {
    active + Named(table, ms, false) * client - (Named(table, ms, true) - client)
  }

  ghost function Cleared(table: seq<Cap>, c: Conn): set<nat> {
    set i: nat | i < |table| && i in c.client && !table[i].sticky
  }

  ghost function Clear(table: seq<Cap>, c: Conn): (Conn, Reply) {
    var cleared := Cleared(table, c);
    (c.(client := c.client - cleared, active := c.active - cleared * Plain(table)), Listing("ACK", None, Some(cleared)))
  }

  /** One need is met; registration follows when none remains. */
  ghost function Met(c: Conn, need: Need): Conn {
    if !c.unknown then c else c.(needs := c.needs - {need}, unknown := c.needs - {need} != {})
  }

  lemma SaidSnoc(ms: seq<Mention>, m: Mention, c: nat)
    ensures Said(ms + [m], c) == if m.cap == Some(c) then Some(!m.neg) else Said(ms, c)
  {
    assert (ms + [m])[..|ms|] == ms;
  }

  lemma AskedSnoc(table: seq<Cap>, ms: seq<Mention>, k: nat, neg: bool)
    requires k < |table|
    ensures Asked(table, ms + [Mention(Some(k), neg)], !neg) == Asked(table, ms, !neg) + {k}
    ensures Asked(table, ms + [Mention(Some(k), neg)], neg) == Asked(table, ms, neg) - {k}
  {
    forall c: nat ensures Said(ms + [Mention(Some(k), neg)], c) == if c == k then Some(!neg) else Said(ms, c) {
      SaidSnoc(ms, Mention(Some(k), neg), c);
    }
  }

  class Connection {
    const table: seq<Cap>
    var client: set<nat>
    var active: set<nat>
    var needs: set<Need>
    var unknown: bool
    var sent: seq<Reply>

    ghost function Value(): Conn
      reads this`client, this`active, this`needs, this`unknown
    {
      Conn(client, active, needs, unknown)
    }

    constructor (table: seq<Cap>)
      ensures this.table == table && Value() == Conn({}, {}, {NeedUser, NeedNick}, true) && sent == []
    {
      this.table := table;
      client, active, needs, unknown, sent := {}, {}, {NeedUser, NeedNick}, true, [];
    }

    /** Registration that has not completed is suspended. */
    method Suspend()
      modifies this`needs
      ensures Value() == Suspended(old(Value()))
    {
      if unknown {
        needs := needs + {NeedCap};
      }
    }

    /** One element of a request that can be granted. */
    method Grant(c: nat, neg: bool, add0: set<nat>, rem0: set<nat>, cs0: set<nat>, as0: set<nat>)
      returns (add: set<nat>, rem: set<nat>, cs: set<nat>, as': set<nat>)
      requires c < |table|
      ensures add == if neg then add0 - {c} else add0 + {c}
      ensures rem == if neg then rem0 + {c} else rem0 - {c}
      ensures cs == if neg then cs0 - {c} else cs0 + {c}
      ensures as' == if c !in Plain(table) then as0 else if neg then as0 - {c} else as0 + {c}
    {
      if neg {
        rem, add, cs, as' := rem0 + {c}, add0 - {c}, cs0 - {c}, as0;
        if !table[c].proto {
          as' := as' - {c};
        }
      } else {
        rem, add, cs, as' := rem0 - {c}, add0 + {c}, cs0 + {c}, as0;
        if !table[c].proto {
          as' := as' + {c};
        }
      }
    }

    /** The walk of cap_req over the list; ok is false at the first element that cannot be granted. */
    method WalkRequest(list: string, cs0: set<nat>, as0: set<nat>)
      returns (ok: bool, add: set<nat>, rem: set<nat>, cs: set<nat>, as': set<nat>)
      requires TableOk(table) && CString(list)
      ensures ok <==> AllAllowed(table, Mentions(table, list))
      ensures ok ==> Granted(table, Mentions(table, list), cs0, as0, add, rem, cs, as')
    {
      ok, add, rem, cs, as' := true, {}, {}, cs0, as0;
      var cl := Some(0);
      ghost var done: seq<Mention> := [];
      assert list[0..] == list;
      while cl.Some?
        invariant Progress(table, list, cl, done)
        invariant AllAllowed(table, done)
        invariant Granted(table, done, cs0, as0, add, rem, cs, as')
        decreases if cl.Some? then |list| - cl.value + 1 else 0
      {
        ok, cl, add, rem, cs, as', done := WalkOne(list, cl.value, add, rem, cs, as', done, cs0, as0);
        if !ok {
          return;
        }
      }
    }

    /** The body of the walk. */
    method WalkOne(list: string, i: nat, add0: set<nat>, rem0: set<nat>, cs0: set<nat>, as0: set<nat>,
                   ghost done: seq<Mention>, ghost client0: set<nat>, ghost active0: set<nat>)
      returns (ok: bool, next: Option<nat>, add: set<nat>, rem: set<nat>, cs: set<nat>, as': set<nat>,
               ghost done': seq<Mention>)
      requires TableOk(table) && CString(list) && Progress(table, list, Some(i), done)
      requires AllAllowed(table, done) && Granted(table, done, client0, active0, add0, rem0, cs0, as0)
      ensures if ok then
                && Progress(table, list, next, done') && AllAllowed(table, done')
                && Granted(table, done', client0, active0, add, rem, cs, as')
                && (next.Some? ==> i < next.value)
              else !AllAllowed(table, Mentions(table, list))
    {
      add, rem, cs, as', done' := add0, rem0, cs0, as0, done;
      var cap, neg;
      cap, neg, next := FindCap(table, list, i);
      ProgressStep(table, list, i, done, next);
      ok := cap.Some? && !(if neg then table[cap.value].sticky else table[cap.value].prohibit);
      if ok {
        GrantedStep(table, done, client0, active0, add, rem, cs, as', cap.value, neg);
        add, rem, cs, as' := Grant(cap.value, neg, add, rem, cs, as');
        done' := done + [Mention(cap, neg)];
      }
    }

    /** cap_req. */
    method DoReq(list: Option<string>)
      requires TableOk(table) && (list.Some? ==> CString(list.value))
      modifies this
      ensures (Value(), sent) == (Req(table, old(Value()), list).0, old(sent) + [Req(table, old(Value()), list).1])
    {
      Suspend();
      if list.None? {
        RequestNothing(table, old(Value()));
        sent := sent + [Listing("ACK", Some({}), Some({}))];
        return;
      }
      var ok, add, rem, cs, as' := WalkRequest(list.value, client, active);
      if !ok {
        sent := sent + [Nak(list.value)];
        return;
      }
      sent := sent + [Listing("ACK", Some(add), Some(rem))];
      client, active := cs, as';
    }

    /** cap_ack. */
    method DoAck(list: Option<string>)
      requires TableOk(table) && (list.Some? ==> CString(list.value))
      modifies this`active
      ensures Value() == Ack(table, old(Value()), list)
    {
      if list.None? {
        return;
      }
      var cl := Some(0);
      ghost var done: seq<Mention> := [];
      assert list.value[0..] == list.value;
      while cl.Some?
        invariant Progress(table, list.value, cl, done)
        invariant active == Acked(table, done, client, old(active))
        decreases if cl.Some? then |list.value| - cl.value + 1 else 0
      {
        var cap, neg, next := FindCap(table, list.value, cl.value);
        ProgressStep(table, list.value, cl.value, done, next);
        if cap.None? {
          AckedUnknown(table, done, neg, client, old(active));
        } else {
          AckedSnoc(table, done, cap.value, neg, client, old(active));
          if neg != (cap.value in client) {
            active := if neg then active - {cap.value} else active + {cap.value};
          }
        }
        done := done + [Mention(cap, neg)];
        cl := next;
      }
    }

    /** cap_clear. */
    method DoClear()
      modifies this
      ensures (Value(), sent) == (Clear(table, old(Value())).0, old(sent) + [Clear(table, old(Value())).1])
      ensures needs == old(needs)
    {
      var cleared := {};
      var i := 0;
      while i < |table|
        invariant i <= |table| && unknown == old(unknown) && needs == old(needs) && sent == old(sent)
        invariant cleared == set c: nat | c < i && c < |table| && c in old(client) && !table[c].sticky
        invariant client == old(client) - cleared && active == old(active) - cleared * Plain(table)
      {
        if i in client && !table[i].sticky {
          cleared := cleared + {i};
          client := client - {i};
          if !table[i].proto {
            active := active - {i};
          }
        }
        i := i + 1;
      }
      assert cleared == Cleared(table, old(Value()));
      sent := sent + [Listing("ACK", None, Some(cleared))];
    }

    /** cap_end, and the commands that meet the other needs; it answers whether registration follows. */
    method Meet(need: Need) returns (registers: bool)
      modifies this`needs, this`unknown
      ensures Value() == Met(old(Value()), need)
      ensures registers <==> old(unknown) && old(needs) <= {need}
    {
      if !unknown {
        return false;
      }
      needs := needs - {need};
      registers := needs == {};
      if registers {
        unknown := false;
      }
    }

    /** cap_ls. */
    method DoLs()
      modifies this`needs, this`sent
      ensures Value() == Suspended(old(Value())) && sent == old(sent) + [Listing("LS", None, None)]
    {
      Suspend();
      sent := sent + [Listing("LS", None, None)];
    }

    /** cap_list. */
    method DoList()
      modifies this`sent
      ensures sent == old(sent) + [Listing("LIST", Some(client), None)]
    {
      sent := sent + [Listing("LIST", Some(client), None)];
    }
  }

  /** A request without a list is acknowledged and changes neither set. */
  lemma RequestNothing(table: seq<Cap>, c: Conn)
    ensures Req(table, c, None) == (Suspended(c), Listing("ACK", Some({}), Some({})))
  {
    assert Asked(table, [], true) == {} && Asked(table, [], false) == {};
    assert c.client - {} + {} == c.client;
    assert c.active - {} * Plain(table) + {} * Plain(table) == c.active;
  }

  lemma AckedSnoc(table: seq<Cap>, ms: seq<Mention>, c: nat, neg: bool, client: set<nat>, active: set<nat>)
    requires c < |table|
    ensures Acked(table, ms + [Mention(Some(c), neg)], client, active) ==
            if neg == (c in client) then Acked(table, ms, client, active)
            else if neg then Acked(table, ms, client, active) - {c} else Acked(table, ms, client, active) + {c}
  {
    NamedSnoc(table, ms, c, neg, neg);
    NamedSnoc(table, ms, c, neg, !neg);
  }

  lemma NamedSnoc(table: seq<Cap>, ms: seq<Mention>, c: nat, neg: bool, sign: bool)
    requires c < |table|
    ensures Named(table, ms + [Mention(Some(c), neg)], sign) == Named(table, ms, sign) + if sign == neg then {c} else {}
  {
    assert forall d: nat :: Mention(Some(d), sign) in ms + [Mention(Some(c), neg)] <==>
                            Mention(Some(d), sign) in ms || (d == c && sign == neg);
  }

  /** A name that is not known changes nothing. */
  lemma AckedUnknown(table: seq<Cap>, ms: seq<Mention>, neg: bool, client: set<nat>, active: set<nat>)
    ensures Acked(table, ms + [Mention(None, neg)], client, active) == Acked(table, ms, client, active)
  {
    assert forall d: nat, sign :: Mention(Some(d), sign) in ms + [Mention(None, neg)] <==> Mention(Some(d), sign) in ms;
    assert Named(table, ms + [Mention(None, neg)], false) == Named(table, ms, false);
    assert Named(table, ms + [Mention(None, neg)], true) == Named(table, ms, true);
  }

  /** The walk stands at cl, with the mentions before it done. */
  ghost predicate Progress(table: seq<Cap>, list: string, cl: Option<nat>, done: seq<Mention>) {
    if cl.None? then done == Mentions(table, list)
    else cl.value <= |list| && done + Mentions(table, list[cl.value..]) == Mentions(table, list)
  }

  lemma ProgressStep(table: seq<Cap>, list: string, p: nat, done: seq<Mention>, next: Option<nat>)
    requires Progress(table, list, Some(p), done)
    requires next.None? ==> Rest(list[p..]) == ""
    requires next.Some? ==> p < next.value < |list| && list[next.value..] == Rest(list[p..])
    ensures Progress(table, list, next, done + [First(table, list[p..])])
    ensures First(table, list[p..]) in Mentions(table, list)
  {
    var m := First(table, list[p..]);
    var ms := Mentions(table, list[p..]);
    assert ms[0] == m;
    assert Mentions(table, list)[|done|] == m;
    assert done + ms == done + [m] + ms[1..];
  }

  /** What a request has come to: the two masks for the reply, and the two new sets. */
  ghost predicate Granted(table: seq<Cap>, ms: seq<Mention>, cs0: set<nat>, as0: set<nat>,
                          add: set<nat>, rem: set<nat>, cs: set<nat>, as': set<nat>) {
    && add == Asked(table, ms, true) && rem == Asked(table, ms, false)
    && cs == cs0 - rem + add && as' == as0 - rem * Plain(table) + add * Plain(table)
  }

  lemma GrantedStep(table: seq<Cap>, ms: seq<Mention>, cs0: set<nat>, as0: set<nat>,
                    add: set<nat>, rem: set<nat>, cs: set<nat>, as': set<nat>, c: nat, neg: bool)
    requires Granted(table, ms, cs0, as0, add, rem, cs, as') && c < |table|
    ensures Granted(table, ms + [Mention(Some(c), neg)], cs0, as0,
                    if neg then add - {c} else add + {c}, if neg then rem + {c} else rem - {c},
                    if neg then cs - {c} else cs + {c},
                    if c !in Plain(table) then as' else if neg then as' - {c} else as' + {c})
  {
    AskedSnoc(table, ms, c, neg);
  }
}
