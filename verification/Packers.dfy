/**
 The loops that pack a list into as few reply lines as fit: WATCH S, ACCEPT *, the channels of a
 WHOIS and the capability list.

 All four are greedy: an item goes on the current line if the room set aside for it is left, and
 starts the next line otherwise.
 */
module Packers {
  import opened Basics
  import opened IrcStrings

  /** The text an item adds to a line, and the room set aside for it. */
  datatype Piece = Piece(text: string, room: nat)

  ghost function Text(ps: seq<Piece>): string {
    if ps == [] then "" else ps[0].text + Text(ps[1..])
  }

  ghost function Flat(pss: seq<seq<Piece>>): seq<Piece> {
    if pss == [] then [] else pss[0] + Flat(pss[1..])
  }

  /** What goes on which line, cur being on the current one already. */
  ghost function Chunks(base: nat, cap: nat, cur: seq<Piece>, ps: seq<Piece>): seq<seq<Piece>>
    decreases |ps|
  {
    if ps == [] then [cur]
    else if base + |Text(cur)| + ps[0].room > cap then [cur] + Chunks(base, cap, [ps[0]], ps[1..])
    else Chunks(base, cap, cur + [ps[0]], ps[1..])
  }

  ghost predicate Roomy(ps: seq<Piece>, limit: int) {
    forall i | 0 <= i < |ps| :: |ps[i].text| <= ps[i].room <= limit
  }

  lemma {:induction false} TextConcat(a: seq<Piece>, b: seq<Piece>)
    ensures Text(a + b) == Text(a) + Text(b)
  {
    if a == [] {
      assert a + b == b;
    } else {
      assert (a + b)[1..] == a[1..] + b;
      TextConcat(a[1..], b);
      assert a[0].text + (Text(a[1..]) + Text(b)) == a[0].text + Text(a[1..]) + Text(b);
    }
  }

  lemma TextSnoc(a: seq<Piece>, p: Piece)
    ensures Text(a + [p]) == Text(a) + p.text
  {
    TextConcat(a, [p]);
    assert Text([p]) == p.text + "" == p.text;
  }

  /** Nothing is lost, repeated, reordered or split. */
  lemma {:induction false} ChunksLossless(base: nat, cap: nat, cur: seq<Piece>, ps: seq<Piece>)
    ensures Flat(Chunks(base, cap, cur, ps)) == cur + ps
    decreases |ps|
  {
    if ps == [] {
      assert cur + [] == cur;
    } else if base + |Text(cur)| + ps[0].room > cap {
      ChunksLossless(base, cap, [ps[0]], ps[1..]);
      assert cur + ([ps[0]] + ps[1..]) == cur + ps;
    } else {
      ChunksLossless(base, cap, cur + [ps[0]], ps[1..]);
      assert cur + [ps[0]] + ps[1..] == cur + ps;
    }
  }

  /** Every line keeps within the cap, and none is empty. */
  lemma {:induction false} ChunksFit(base: nat, cap: nat, cur: seq<Piece>, ps: seq<Piece>, i: nat)
    requires Roomy(ps, cap - base) && base + |Text(cur)| <= cap && i < |Chunks(base, cap, cur, ps)|
    ensures base + |Text(Chunks(base, cap, cur, ps)[i])| <= cap
    ensures cur != [] ==> Chunks(base, cap, cur, ps)[i] != []
    decreases |ps|
  {
    if ps != [] {
      TextSnoc([], ps[0]);
      TextSnoc(cur, ps[0]);
      assert [] + [ps[0]] == [ps[0]];
      assert ps[0].room <= cap - base;
      if base + |Text(cur)| + ps[0].room > cap {
        if i > 0 {
          ChunksFit(base, cap, [ps[0]], ps[1..], i - 1);
        }
      } else {
        ChunksFit(base, cap, cur + [ps[0]], ps[1..], i);
      }
    }
  }

  /** A line ends only where the next item does not fit. */
  lemma {:induction false} ChunksFull(base: nat, cap: nat, cur: seq<Piece>, ps: seq<Piece>, i: nat)
    requires i + 1 < |Chunks(base, cap, cur, ps)|
    ensures var css := Chunks(base, cap, cur, ps);
            css[i + 1] != [] && base + |Text(css[i])| + css[i + 1][0].room > cap
    decreases |ps|
  {
    if ps != [] {
      if base + |Text(cur)| + ps[0].room > cap {
        if i > 0 {
          ChunksFull(base, cap, [ps[0]], ps[1..], i - 1);
        } else {
          ChunksStart(base, cap, [ps[0]], ps[1..]);
        }
      } else {
        ChunksFull(base, cap, cur + [ps[0]], ps[1..], i);
      }
    }
  }

  /** Line i was ended because the room for the next item was not there. */
  ghost predicate FullAt(base: nat, cap: nat, css: seq<seq<Piece>>, i: nat) {
    i + 1 < |css| ==> css[i + 1] != [] && base + |Text(css[i])| + css[i + 1][0].room > cap
  }

  ghost predicate AllFull(base: nat, cap: nat, css: seq<seq<Piece>>) {
    forall i: nat :: FullAt(base, cap, css, i)
  }

  lemma ChunksAllFull(base: nat, cap: nat, cur: seq<Piece>, ps: seq<Piece>)
    ensures AllFull(base, cap, Chunks(base, cap, cur, ps))
  {
    var css := Chunks(base, cap, cur, ps);
    forall i: nat ensures FullAt(base, cap, css, i) {
      if i + 1 < |css| {
        ChunksFull(base, cap, cur, ps, i);
      }
    }
  }

  lemma {:induction false} ChunksStart(base: nat, cap: nat, cur: seq<Piece>, ps: seq<Piece>)
    ensures var css := Chunks(base, cap, cur, ps); css != [] && |css[0]| >= |cur| && css[0][..|cur|] == cur
    decreases |ps|
  {
    if ps != [] && base + |Text(cur)| + ps[0].room <= cap {
      ChunksStart(base, cap, cur + [ps[0]], ps[1..]);
      var c := Chunks(base, cap, cur + [ps[0]], ps[1..])[0];
      assert c[..|cur|] == c[..|cur| + 1][..|cur|];
    }
  }

  // ---------------------------------------------------------------------------------------
  // No fewer lines would do
  // ---------------------------------------------------------------------------------------

  /** On such a line every item has the room set aside for it behind the items before it. */
  ghost predicate Admissible(base: nat, cap: nat, line: seq<Piece>) {
    forall i | 0 <= i < |line| :: base + |Text(line[..i])| + line[i].room <= cap
  }

  ghost predicate AllAdmissible(base: nat, cap: nat, css: seq<seq<Piece>>) {
    forall i | 0 <= i < |css| :: Admissible(base, cap, css[i])
  }

  lemma AdmissibleSnoc(base: nat, cap: nat, line: seq<Piece>, p: Piece)
    requires Admissible(base, cap, line) && base + |Text(line)| + p.room <= cap
    ensures Admissible(base, cap, line + [p])
  {
    var s := line + [p];
    forall i | 0 <= i < |s| ensures base + |Text(s[..i])| + s[i].room <= cap {
      assert s[..i] == line[..i];
      assert line[..|line|] == line;
    }
  }

  lemma AdmissibleRest(base: nat, cap: nat, line: seq<Piece>, n: nat)
    requires Admissible(base, cap, line) && n <= |line|
    ensures Admissible(base, cap, line[n..])
  {
    var s := line[n..];
    forall i | 0 <= i < |s| ensures base + |Text(s[..i])| + s[i].room <= cap {
      assert line[..n + i] == line[..n] + s[..i];
      TextConcat(line[..n], s[..i]);
      assert s[i] == line[n + i];
    }
  }

  /** The lines of the greedy packing are of that kind. */
  lemma {:induction false} ChunksAdmissible(base: nat, cap: nat, cur: seq<Piece>, ps: seq<Piece>)
    requires Roomy(ps, cap - base) && Admissible(base, cap, cur)
    ensures AllAdmissible(base, cap, Chunks(base, cap, cur, ps))
    decreases |ps|
  {
    if ps != [] {
      if base + |Text(cur)| + ps[0].room > cap {
        AdmissibleSnoc(base, cap, [], ps[0]);
        assert [] + [ps[0]] == [ps[0]];
        ChunksAdmissible(base, cap, [ps[0]], ps[1..]);
      } else {
        AdmissibleSnoc(base, cap, cur, ps[0]);
        ChunksAdmissible(base, cap, cur + [ps[0]], ps[1..]);
      }
    }
  }

  /** Lines without their first n items are no more lines. */
  lemma {:induction false} DropFront(base: nat, cap: nat, css: seq<seq<Piece>>, n: nat) returns (ds: seq<seq<Piece>>)
    requires AllAdmissible(base, cap, css) && n <= |Flat(css)|
    ensures AllAdmissible(base, cap, ds) && |ds| <= |css| && Flat(ds) == Flat(css)[n..]
  {
    if css == [] {
      ds := [];
    } else if n >= |css[0]| {
      ds := DropFront(base, cap, css[1..], n - |css[0]|);
    } else {
      ds := [css[0][n..]] + css[1..];
      AdmissibleRest(base, cap, css[0], n);
      assert ds[1..] == css[1..];
    }
  }

  /** An admissible line that begins like the current one and reaches an item that is over ends before it. */
  lemma EndsBefore(base: nat, cap: nat, line: seq<Piece>, cur: seq<Piece>, p: Piece, rest: seq<Piece>)
    requires Admissible(base, cap, line) && base + |Text(cur)| + p.room > cap
    requires line <= cur + ([p] + rest)
    ensures |line| <= |cur| && cur + ([p] + rest) == line + (cur[|line|..] + ([p] + rest))
  {
    LongerLine(line, cur, p, rest);
  }

  lemma LongerLine(line: seq<Piece>, cur: seq<Piece>, p: Piece, rest: seq<Piece>)
    requires line <= cur + ([p] + rest)
    ensures |line| > |cur| ==> line[..|cur|] == cur && line[|cur|] == p
  {
  }

  /** No division of the items into admissible lines has fewer lines than the greedy one. */
  lemma {:induction false} ChunksFewest(base: nat, cap: nat, cur: seq<Piece>, ps: seq<Piece>, css: seq<seq<Piece>>)
    requires AllAdmissible(base, cap, css) && Flat(css) == cur + ps != []
    ensures |Chunks(base, cap, cur, ps)| <= |css|
    decreases |ps|, |css|
  {
    if ps != [] {
      var p, t := ps[0], ps[1..];
      assert ps == [p] + t;
      if base + |Text(cur)| + p.room <= cap {
        assert cur + [p] + t == cur + ps;
        ChunksFewest(base, cap, cur + [p], t, css);
      } else if css[0] == [] {
        ChunksFewest(base, cap, cur, ps, css[1..]);
      } else {
        FewerBehind(base, cap, cur, p, t, css);
      }
    }
  }

  lemma {:induction false} FewerBehind(base: nat, cap: nat, cur: seq<Piece>, p: Piece, t: seq<Piece>,
                                       css: seq<seq<Piece>>)
    requires AllAdmissible(base, cap, css) && css != [] && Flat(css) == cur + ([p] + t)
    requires base + |Text(cur)| + p.room > cap
    ensures 1 + |Chunks(base, cap, [p], t)| <= |css|
    decreases |t| + 1, 0
  {
    EndsBefore(base, cap, css[0], cur, p, t);
    var x := cur[|css[0]|..];
    assert Flat(css[1..]) == x + ([p] + t) by {
      assert Flat(css)[|css[0]|..] == Flat(css[1..]);
    }
    var ds := DropFront(base, cap, css[1..], |x|);
    assert Flat(ds) == [p] + t;
    ChunksFewest(base, cap, [p], t, ds);
  }

  // ---------------------------------------------------------------------------------------
  // Lines
  // ---------------------------------------------------------------------------------------

  function Header(me: string, numeric: string, nick: string): string {
    ":" + me + " " + numeric + " " + nick + " :"
  }

  /**
   How a line goes out: as it is, with its last character, a blank, cut off, or marked with a star
   when it is not the last one.
   */
  datatype Style = Plain | Trimmed | Starred

  function Trim(s: string): string {
    if s == "" then "" else s[..|s| - 1]
  }

  ghost function LineOf(style: Style, header: string, cur: seq<Piece>, last: bool): string {
    match style
    case Plain => header + Text(cur)
    case Trimmed => header + Trim(Text(cur))
    case Starred => header + (if last then ":" else "* :") + Text(cur)
  }

  ghost function Lines(style: Style, header: string, css: seq<seq<Piece>>): seq<string> {
    if css == [] then [] else [LineOf(style, header, css[0], |css| == 1)] + Lines(style, header, css[1..])
  }

  function LedPiece(item: string, first: bool): Piece {
    var text := if first then item else " " + item;
    Piece(text, |text|)
  }

  /** strlcat into a buffer of this size. */
  function Strlcat(a: string, b: string, size: nat): string
    requires size > 0
  {
    if |a + b| < size then a + b else (a + b)[..size - 1]
  }

  /** The lines sent so far, and what is still to come, make up the whole reply. */
  ghost predicate Packing(goal: seq<string>, style: Style, lines: seq<string>, header: string, css: seq<seq<Piece>>) {
    goal == lines + Lines(style, header, css)
  }

  /** Whether the next item starts a new line. */
  predicate Over(base: nat, cap: nat, used: nat, p: Piece) {
    base + used + p.room > cap
  }

  lemma PackingStart(style: Style, header: string, css: seq<seq<Piece>>)
    ensures Packing(Lines(style, header, css), style, [], header, css)
  {
  }

  lemma PackingStep(goal: seq<string>, style: Style, lines: seq<string>, header: string, base: nat, cap: nat,
                    cur: seq<Piece>, p: Piece, ps: seq<Piece>)
    requires Packing(goal, style, lines, header, Chunks(base, cap, cur, [p] + ps))
    ensures if Over(base, cap, |Text(cur)|, p)
            then Packing(goal, style, lines + [LineOf(style, header, cur, false)], header, Chunks(base, cap, [p], ps))
            else Packing(goal, style, lines, header, Chunks(base, cap, cur + [p], ps))
    ensures Text([p]) == p.text && Text(cur + [p]) == Text(cur) + p.text
  {
    TextOne(p);
    TextSnoc(cur, p);
    assert ([p] + ps)[1..] == ps;
    var css := Chunks(base, cap, [p], ps);
    ChunksStart(base, cap, [p], ps);
    assert ([cur] + css)[1..] == css;
    Assoc(lines, [LineOf(style, header, cur, false)], Lines(style, header, css));
  }

  lemma PackingEnd(goal: seq<string>, style: Style, lines: seq<string>, header: string, base: nat, cap: nat,
                   cur: seq<Piece>)
    requires Packing(goal, style, lines, header, Chunks(base, cap, cur, []))
    ensures goal == lines + [LineOf(style, header, cur, true)]
  {
    var css := [cur];
    assert Chunks(base, cap, cur, []) == css && css[1..] == [];
    assert Lines(style, header, []) == [];
    assert Lines(style, header, css) == [LineOf(style, header, cur, true)];
  }

  lemma TextOne(p: Piece)
    ensures Text([p]) == p.text
  {
    assert Text([p]) == p.text + "";
  }

  // ---------------------------------------------------------------------------------------
  // WATCH S
  // ---------------------------------------------------------------------------------------

  ghost function WatchChunks(me: string, nick: string, nicks: seq<string>): seq<seq<Piece>>
    requires nicks != []
  {
    Chunks(|nick| + |me| + 10, BUFSIZE - 2, [LedPiece(nicks[0], true)], Tail(nicks, 1))
  }

  /** The pieces for the items from the k-th on. */
  ghost function Tail(items: seq<string>, k: nat): seq<Piece>
    requires k <= |items|
    decreases |items| - k
  {
    if k == |items| then [] else [LedPiece(items[k], k == 0)] + Tail(items, k + 1)
  }

  /** A piece for which just the room that it takes is set aside. */
  ghost function Whole(text: string): Piece {
    Piece(text, |text|)
  }

  /** The items with a blank before each, the first excepted. */
  ghost function Led(items: seq<string>, first: bool): seq<Piece> {
    if items == [] then [] else [Whole(if first then items[0] else " " + items[0])] + Led(items[1..], false)
  }

  lemma {:induction false} TailIsLed(items: seq<string>, k: nat)
    requires k <= |items|
    ensures Tail(items, k) == Led(items[k..], k == 0)
    decreases |items| - k
  {
    if k < |items| {
      TailIsLed(items, k + 1);
      assert items[k..][1..] == items[k + 1..];
    }
  }

  /** Host names and nicks are as long as they can be, and no longer. */
  ghost predicate Names(me: string, nick: string) {
    |me| <= HOSTLEN && |nick| <= NICKLEN
  }

  /** The two calls of strlcat; nothing is cut off. */
  method Append(buf: string, item: string) returns (r: string)
    requires |buf| + |item| + 1 < BUFSIZE
    ensures r == buf + LedPiece(item, false).text
  {
    r := Strlcat(Strlcat(buf, " ", BUFSIZE), item, BUFSIZE);
    assert buf + " " + item == buf + (" " + item);
  }

  /** One further entry of the listing. */
  method WatchItem(lines0: seq<string>, me: string, nick: string, item: string, buf0: string, count0: nat,
                   ghost goal: seq<string>, ghost cur0: seq<Piece>, ghost ps: seq<Piece>)
    returns (lines: seq<string>, buf: string, count: nat, ghost cur: seq<Piece>)
    requires Names(me, nick) && |item| <= NICKLEN
    requires buf0 == Text(cur0) && count0 == |nick| + |me| + 10 + |buf0| <= BUFSIZE - 2
    requires Packing(goal, Plain, lines0, Header(me, "606", nick),
                     Chunks(|nick| + |me| + 10, BUFSIZE - 2, cur0, [LedPiece(item, false)] + ps))
    ensures buf == Text(cur) && count == |nick| + |me| + 10 + |buf| <= BUFSIZE - 2
    ensures Packing(goal, Plain, lines, Header(me, "606", nick), Chunks(|nick| + |me| + 10, BUFSIZE - 2, cur, ps))
  {
    ghost var p := LedPiece(item, false);
    PackingStep(goal, Plain, lines0, Header(me, "606", nick), |nick| + |me| + 10, BUFSIZE - 2, cur0, p, ps);
    lines, buf, count, cur := lines0, buf0, count0, cur0 + [p];
    if count + |item| + 1 > BUFSIZE - 2 {
      lines := lines + [Header(me, "606", nick) + buf];
      buf, count, cur := "", |nick| + |me| + 10, [p];
    }
    buf := Append(buf, item);
    count := count + |item| + 1;
  }

  /** The S listing of m_watch. */
  method ListWatches(me: string, nick: string, nicks: seq<string>) returns (lines: seq<string>)
    requires Names(me, nick) && forall i | 0 <= i < |nicks| :: |nicks[i]| <= NICKLEN
    ensures lines == if nicks == [] then [] else Lines(Plain, Header(me, "606", nick), WatchChunks(me, nick, nicks))
  {
    if nicks == [] {
      return [];
    }
    lines := WatchLines(me, nick, nicks, Lines(Plain, Header(me, "606", nick), WatchChunks(me, nick, nicks)));
  }

  /** The listing of at least one entry. */
  method WatchLines(me: string, nick: string, nicks: seq<string>, ghost goal: seq<string>) returns (lines: seq<string>)
    requires Names(me, nick) && nicks != [] && forall i | 0 <= i < |nicks| :: |nicks[i]| <= NICKLEN
    requires goal == Lines(Plain, Header(me, "606", nick), WatchChunks(me, nick, nicks))
    ensures lines == goal
  {
    ghost var cur := [LedPiece(nicks[0], true)];
    TextOne(cur[0]);
    PackingStart(Plain, Header(me, "606", nick), WatchChunks(me, nick, nicks));
    lines := WatchRest(me, nick, nicks, goal, cur);
  }

  /** The loop, the first entry being in the buffer. */
  method WatchRest(me: string, nick: string, nicks: seq<string>, ghost goal: seq<string>, ghost cur0: seq<Piece>)
      returns (lines: seq<string>)
    requires Names(me, nick) && nicks != [] && forall i | 0 <= i < |nicks| :: |nicks[i]| <= NICKLEN
    requires Text(cur0) == nicks[0]
    requires Packing(goal, Plain, [], Header(me, "606", nick),
                     Chunks(|nick| + |me| + 10, BUFSIZE - 2, cur0, Tail(nicks, 1)))
    ensures lines == goal
  {
    lines := [];
    var buf := nicks[0];
    var count := |nick| + |me| + 10 + |buf|;
    ghost var cur := cur0;
    var i := 1;
    while i < |nicks|
      invariant 1 <= i <= |nicks| && buf == Text(cur) && count == |nick| + |me| + 10 + |buf| <= BUFSIZE - 2
      invariant Packing(goal, Plain, lines, Header(me, "606", nick),
                        Chunks(|nick| + |me| + 10, BUFSIZE - 2, cur, Tail(nicks, i)))
    {
      lines, buf, count, cur := WatchItem(lines, me, nick, nicks[i], buf, count, goal, cur, Tail(nicks, i + 1));
      i := i + 1;
    }
    PackingEnd(goal, Plain, lines, Header(me, "606", nick), |nick| + |me| + 10, BUFSIZE - 2, cur);
    lines := lines + [Header(me, "606", nick) + buf];
  }

  // ---------------------------------------------------------------------------------------
  // The list of accepted masks
  // ---------------------------------------------------------------------------------------

  datatype Mask = Mask(nick: string, user: string, host: string)

  function MaskText(m: Mask): string {
    m.nick + "!" + m.user + "@" + m.host
  }

  ghost predicate MaskOk(m: Mask) {
    && |m.nick| <= NICKLEN && |m.user| <= USERLEN && |m.host| <= HOSTLEN
    && EOS !in m.nick && EOS !in m.user && EOS !in m.host
  }

  function Followed(item: string, room: nat): Piece {
    Piece(item + " ", room)
  }

  function MaskPiece(m: Mask): Piece {
    Followed(MaskText(m), |MaskText(m)| + 1)
  }

  /** The pieces for the masks from the k-th on. */
  ghost function MaskPieces(masks: seq<Mask>, k: nat): seq<Piece>
    requires k <= |masks|
    decreases |masks| - k
  {
    if k == |masks| then [] else [MaskPiece(masks[k])] + MaskPieces(masks, k + 1)
  }

  ghost function AcceptChunks(me: string, nick: string, masks: seq<Mask>): seq<seq<Piece>> {
    Chunks(|me| + |nick| + 10, BUFSIZE, [], MaskPieces(masks, 0))
  }

  /** sprintf to a place in a buffer. */
  method Put(buf: array<char>, t: nat, s: string)
    requires t + |s| < buf.Length
    modifies buf
    ensures buf[..t + |s|] == old(buf[..t]) + s && buf[t + |s|] == EOS
  {
    var i := 0;
    while i < |s|
      invariant i <= |s| && buf[..t + i] == old(buf[..t]) + s[..i]
    {
      buf[t + i] := s[i];
      i := i + 1;
      assert buf[..t + i] == buf[..t + i - 1] + [s[i - 1]] && s[..i] == s[..i - 1] + [s[i - 1]];
    }
    buf[t + |s|] := EOS;
    assert buf[..t + |s|] == old(buf[..t]) + s[..|s|] && s[..|s|] == s;
  }

  /** The text of a buffer up to t, its last character cut off. */
  method Cut(buf: array<char>, t: nat) returns (text: string)
    requires 0 < t <= buf.Length && EOS !in buf[..t]
    modifies buf
    ensures text == Trim(old(buf[..t])) && buf[..t - 1] == old(buf[..t - 1])
  {
    ghost var was := buf[..t];
    buf[t - 1] := EOS;
    assert buf[..][..t - 1] == was[..t - 1];
    CTextIs(buf[..], t - 1);
    text := CText(buf[..]);
  }

  /** One item into a buffer whose first characters are kept; before it, if it is over, the line goes out. */
  method Place(buf: array<char>, start: nat, t: nat, text: string, over: bool) returns (line: string, t': nat)
    requires start <= t <= buf.Length && EOS !in buf[..t] && (over ==> t > start)
    requires (if over then start else t) + |text| < buf.Length
    modifies buf
    ensures over ==> line == Trim(old(buf[..t]))
    ensures t' == (if over then start else t) + |text|
    ensures buf[..t'] == (if over then old(buf[..start]) else old(buf[..t])) + text
  {
    line, t' := "", t;
    if over {
      line := Cut(buf, t);
      t' := start;
      assert buf[..start] == buf[..t - 1][..start] == old(buf[..start]);
    }
    assert buf[..t'] == if over then old(buf[..start]) else old(buf[..t]);
    Put(buf, t', text);
    t' := t' + |text|;
  }

  /** The buffer holds the part of the header that is kept in it, and the items of the current line. */
  ghost predicate Holds(buf: array<char>, t: nat, kept: string, cur: seq<Piece>)
    reads buf
  {
    t < buf.Length && buf[..t] == kept + Text(cur) && EOS !in buf[..t]
  }

  lemma TrimAfter(kept: string, text: string)
    ensures text != "" ==> Trim(kept + text) == kept + Trim(text)
  {
  }

  /** The part of the round that writes: the items of the current line in the buffer are the new ones. */
  method PlaceItem(kept: string, buf: array<char>, t: nat, p: Piece, over: bool, ghost cur: seq<Piece>)
      returns (line: string, t': nat, ghost cur': seq<Piece>)
    requires Holds(buf, t, kept, cur) && EOS !in p.text && (over ==> t > |kept|)
    requires (if over then |kept| else t) + |p.text| < buf.Length
    modifies buf
    ensures cur' == if over then [p] else cur + [p]
    ensures Holds(buf, t', kept, cur') && t' == (if over then |kept| else t) + |p.text|
    ensures over ==> line == kept + Trim(Text(cur))
  {
    cur' := if over then [p] else cur + [p];
    TextOne(p);
    TextSnoc(cur, p);
    TrimAfter(kept, Text(cur));
    assert buf[..|kept|] == buf[..t][..|kept|] == kept;
    line, t' := Place(buf, |kept|, t, p.text, over);
    Assoc(kept, Text(cur), p.text);
  }

  /** One round of a packer that writes into a buffer: sent is the part of the header outside it. */
  method PackItem(lines0: seq<string>, sent: string, kept: string, buf: array<char>, t: nat, p: Piece,
                  base: nat, cap: nat, ghost goal: seq<string>, ghost cur: seq<Piece>, ghost ps: seq<Piece>)
      returns (lines: seq<string>, t': nat, ghost cur': seq<Piece>)
    requires Holds(buf, t, kept, cur) && base + (t - |kept|) <= cap
    requires 0 < |p.text| <= p.room && EOS !in p.text && base + p.room <= cap && |kept| + (cap - base) < buf.Length
    requires Packing(goal, Trimmed, lines0, sent + kept, Chunks(base, cap, cur, [p] + ps))
    modifies buf
    ensures Holds(buf, t', kept, cur') && |kept| < t' && base + (t' - |kept|) <= cap
    ensures Packing(goal, Trimmed, lines, sent + kept, Chunks(base, cap, cur', ps))
  {
    PackingStep(goal, Trimmed, lines0, sent + kept, base, cap, cur, p, ps);
    var over := base + (t - |kept|) + p.room > cap;
    var line;
    line, t', cur' := PlaceItem(kept, buf, t, p, over, cur);
    lines := if over then lines0 + [sent + line] else lines0;
    Assoc(sent, kept, Trim(Text(cur)));
  }

  /** The last line of such a packer. */
  method PackLast(lines0: seq<string>, sent: string, kept: string, buf: array<char>, t: nat,
                  ghost goal: seq<string>, ghost base: nat, ghost cap: nat, ghost cur: seq<Piece>)
      returns (lines: seq<string>)
    requires Holds(buf, t, kept, cur) && t > |kept|
    requires Packing(goal, Trimmed, lines0, sent + kept, Chunks(base, cap, cur, []))
    modifies buf
    ensures lines == goal
  {
    PackingEnd(goal, Trimmed, lines0, sent + kept, base, cap, cur);
    TrimAfter(kept, Text(cur));
    var line := Cut(buf, t);
    lines := lines0 + [sent + line];
    assert sent + line == sent + kept + Trim(Text(cur));
  }

  /** list_accepts. */
  method ListAccepts(me: string, nick: string, masks: seq<Mask>) returns (lines: seq<string>)
    requires Names(me, nick) && forall i | 0 <= i < |masks| :: MaskOk(masks[i])
    ensures lines == if masks == [] then [] else Lines(Trimmed, Header(me, "281", nick), AcceptChunks(me, nick, masks))
  {
    lines := [];
    var header := Header(me, "281", nick);
    var len := |me| + |nick| + 10;
    ghost var goal := Lines(Trimmed, header, AcceptChunks(me, nick, masks));
    var nicks := new char[BUFSIZE](_ => EOS);
    var t: nat := 0;
    ghost var cur: seq<Piece> := [];
    assert header + "" == header;
    PackingStart(Trimmed, header, AcceptChunks(me, nick, masks));
    var i := 0;
    while i < |masks|
      invariant i <= |masks| && t + len <= BUFSIZE && Holds(nicks, t, "", cur)
      invariant if i == 0 then t == 0 && lines == [] else t > 0
      invariant Packing(goal, Trimmed, lines, header, Chunks(len, BUFSIZE, cur, MaskPieces(masks, i)))
    {
      MaskFits(masks[i]);
      lines, t, cur := PackItem(lines, header, "", nicks, t, MaskPiece(masks[i]), len, BUFSIZE,
                                goal, cur, MaskPieces(masks, i + 1));
      i := i + 1;
    }
    if t > 0 {
      lines := PackLast(lines, header, "", nicks, t, goal, len, BUFSIZE, cur);
    }
  }

  lemma MaskFits(m: Mask)
    requires MaskOk(m)
    ensures 2 <= |MaskText(m)| <= NICKLEN + USERLEN + HOSTLEN + 2 && EOS !in MaskText(m)
  {
  }

  // ---------------------------------------------------------------------------------------
  // The channels of a WHOIS
  // ---------------------------------------------------------------------------------------

  /** A channel of the target, with its status there; shared says that the requester is on it too. */
  datatype Membership = Membership(channel: string, status: string, pub: bool, shared: bool)

  /** Whether requester and target are the same, the target hides channels, the requester is an administrator. */
  datatype Viewer = Viewer(same: bool, hidesChannels: bool, admin: bool)

  /** whois_can_see_channels. */
  function CanSee(v: Viewer, m: Membership): nat {
    if m.pub && !v.hidesChannels then 1
    else if v.same || m.shared then 1
    else if v.admin then 2
    else 0
  }

  function ChannelText(v: Viewer, m: Membership): string {
    (if CanSee(v, m) == 2 then "~" else "") + m.status + m.channel
  }

  ghost predicate MembershipOk(m: Membership) {
    |m.channel| <= CHANNELLEN && |m.status| <= 3 && EOS !in m.channel && EOS !in m.status
  }

  function ChannelPiece(v: Viewer, m: Membership): Piece {
    Followed(ChannelText(v, m), |m.channel| + 5)
  }

  /** The pieces for the channels from the k-th on that the requester may see. */
  ghost function ChannelPieces(v: Viewer, ms: seq<Membership>, k: nat): seq<Piece>
    requires k <= |ms|
    decreases |ms| - k
  {
    if k == |ms| then []
    else if CanSee(v, ms[k]) == 0 then ChannelPieces(v, ms, k + 1)
    else [ChannelPiece(v, ms[k])] + ChannelPieces(v, ms, k + 1)
  }

  function WhoisHeader(me: string, nick: string, target: string): string {
    Header(me, "319", nick + " " + target)
  }

  ghost function WhoisChunks(me: string, nick: string, target: string, v: Viewer,
                             ms: seq<Membership>): seq<seq<Piece>>
  {
    Chunks(|WhoisHeader(me, nick, target)|, BUFSIZE - 2, [], ChannelPieces(v, ms, 0))
  }

  lemma ChannelFits(v: Viewer, m: Membership)
    requires MembershipOk(m)
    ensures |ChannelText(v, m)| + 1 <= |m.channel| + 5 && EOS !in ChannelText(v, m)
  {
  }

  /** The channel list of whois_person; the buffer holds the header of the line, too. */
  method ListChannels(me: string, nick: string, target: string, v: Viewer, ms: seq<Membership>)
      returns (lines: seq<string>)
    requires Names(me, nick) && |target| <= NICKLEN && EOS !in WhoisHeader(me, nick, target)
    requires forall i | 0 <= i < |ms| :: MembershipOk(ms[i])
    ensures lines == if Readable(v, ms) == [] then []
                     else Lines(Trimmed, WhoisHeader(me, nick, target), WhoisChunks(me, nick, target, v, ms))
  {
    TextsAreReadable(v, ms, 0);
    assert ms[0..] == ms;
    var header := WhoisHeader(me, nick, target);
    var buf := new char[BUFSIZE](_ => EOS);
    Put(buf, 0, header);
    var mlen := |header|;
    assert buf[..mlen] == header + Text([]) && "" + header == header;
    var t;
    ghost var goal := Lines(Trimmed, header, WhoisChunks(me, nick, target, v, ms));
    ghost var cur;
    lines, t, cur := PackChannels(header, buf, v, ms, goal);
    if t > mlen {
      lines := PackLast(lines, "", header, buf, t, goal, mlen, BUFSIZE - 2, cur);
    }
  }

  /** The lines sent so far, with the channels from the k-th on still to come. */
  ghost predicate ChannelsLeft(goal: seq<string>, lines: seq<string>, header: string, cur: seq<Piece>,
                               v: Viewer, ms: seq<Membership>, k: nat)
    requires k <= |ms|
  {
    Packing(goal, Trimmed, lines, "" + header, Chunks(|header|, BUFSIZE - 2, cur, ChannelPieces(v, ms, k)))
  }

  /** One channel, if the requester may see it. */
  method PackChannel(lines0: seq<string>, header: string, buf: array<char>, t0: nat, v: Viewer, ms: seq<Membership>,
                     i: nat, ghost goal: seq<string>, ghost cur0: seq<Piece>)
      returns (lines: seq<string>, t: nat, ghost cur: seq<Piece>)
    requires i < |ms| && MembershipOk(ms[i]) && |header| <= t0 <= BUFSIZE - 2
    requires Holds(buf, t0, header, cur0) && buf.Length == BUFSIZE && |header| + CHANNELLEN + 5 <= BUFSIZE - 2
    requires ChannelsLeft(goal, lines0, header, cur0, v, ms, i)
    modifies buf
    ensures |header| <= t <= BUFSIZE - 2 && Holds(buf, t, header, cur)
    ensures if CanSee(v, ms[i]) == 0 then t == t0 && lines == lines0 else t > |header|
    ensures ChannelsLeft(goal, lines, header, cur, v, ms, i + 1)
  {
    lines, t, cur := lines0, t0, cur0;
    if CanSee(v, ms[i]) != 0 {
      ChannelFits(v, ms[i]);
      lines, t, cur := PackItem(lines, "", header, buf, t, ChannelPiece(v, ms[i]), |header|, BUFSIZE - 2,
                                goal, cur, ChannelPieces(v, ms, i + 1));
    }
  }

  /** The loop over the channels. */
  method PackChannels(header: string, buf: array<char>, v: Viewer, ms: seq<Membership>, ghost goal: seq<string>)
      returns (lines: seq<string>, t: nat, ghost cur: seq<Piece>)
    requires Holds(buf, |header|, header, []) && buf.Length == BUFSIZE && |header| + CHANNELLEN + 5 <= BUFSIZE - 2
    requires ChannelsLeft(goal, [], header, [], v, ms, 0)
    requires forall i | 0 <= i < |ms| :: MembershipOk(ms[i])
    modifies buf
    ensures |header| <= t && Holds(buf, t, header, cur)
    ensures t == |header| <==> ChannelPieces(v, ms, 0) == []
    ensures t == |header| ==> lines == []
    ensures ChannelsLeft(goal, lines, header, cur, v, ms, |ms|)
  {
    lines, t, cur := [], |header|, [];
    ghost var pieces := ChannelPieces(v, ms, 0);
    var i := 0;
    while i < |ms|
      invariant i <= |ms| && |header| <= t <= BUFSIZE - 2 && Holds(buf, t, header, cur)
      invariant if t == |header| then lines == [] && pieces == ChannelPieces(v, ms, i) else pieces != []
      invariant ChannelsLeft(goal, lines, header, cur, v, ms, i)
    {
      lines, t, cur := PackChannel(lines, header, buf, t, v, ms, i, goal, cur);
      i := i + 1;
    }
  }

  // ---------------------------------------------------------------------------------------
  // What the client can rely on
  // ---------------------------------------------------------------------------------------

  /** What the lines say after their headers. */
  ghost function Bodies(style: Style, css: seq<seq<Piece>>): seq<string> {
    if css == [] then []
    else [if style.Trimmed? then Trim(Text(css[0])) else Text(css[0])] + Bodies(style, css[1..])
  }

  ghost function Glued(ss: seq<string>): string {
    if ss == [] then "" else ss[0] + Glued(ss[1..])
  }

  /** A list with a blank after every item. */
  ghost function Spaced(ss: seq<string>): string {
    if ss == [] then "" else ss[0] + " " + Spaced(ss[1..])
  }

  lemma {:induction false} GluedBodies(css: seq<seq<Piece>>)
    ensures Glued(Bodies(Plain, css)) == Text(Flat(css))
  {
    if css != [] {
      GluedBodies(css[1..]);
      TextConcat(css[0], Flat(css[1..]));
    }
  }

  ghost predicate EndsBlank(s: string) {
    s != "" && s[|s| - 1] == ' '
  }

  lemma {:induction false} SpacedBodies(css: seq<seq<Piece>>)
    requires forall i | 0 <= i < |css| :: EndsBlank(Text(css[i]))
    ensures Spaced(Bodies(Trimmed, css)) == Text(Flat(css))
  {
    if css != [] {
      SpacedBodies(css[1..]);
      TextConcat(css[0], Flat(css[1..]));
      assert EndsBlank(Text(css[0]));
      assert Trim(Text(css[0])) + " " == Text(css[0]);
    }
  }

  lemma {:induction false} LinesLength(style: Style, header: string, css: seq<seq<Piece>>)
    ensures |Lines(style, header, css)| == |css| == |Bodies(style, css)|
  {
    if css != [] {
      LinesLength(style, header, css[1..]);
    }
  }

  lemma {:induction false} LinesAt(style: Style, header: string, css: seq<seq<Piece>>, i: nat)
    requires i < |css|
    ensures |Lines(style, header, css)| == |css| == |Bodies(style, css)|
    ensures Lines(style, header, css)[i] == LineOf(style, header, css[i], i == |css| - 1)
    ensures style != Starred ==> Lines(style, header, css)[i] == header + Bodies(style, css)[i]
  {
    LinesLength(style, header, css);
    if i > 0 {
      LinesAt(style, header, css[1..], i - 1);
    }
  }

  lemma {:induction false} TailFacts(items: seq<string>, k: nat, limit: nat)
    requires k <= |items| && forall i | 0 <= i < |items| :: |items[i]| < limit
    ensures Roomy(Tail(items, k), limit)
    decreases |items| - k
  {
    if k < |items| {
      TailFacts(items, k + 1, limit);
    }
  }

  /** Every line is the header and a body of whole items, and fits the limit of RFC 1459, section 2.3. */
  ghost predicate Delivered(style: Style, header: string, css: seq<seq<Piece>>, lines: seq<string>) {
    && |lines| == |css| == |Bodies(style, css)|
    && forall i | 0 <= i < |lines| ::
         css[i] != [] && lines[i] == header + Bodies(style, css)[i] && |lines[i]| + 2 <= BUFSIZE
  }

  lemma {:induction false} LinesDelivered(style: Style, header: string, base: nat, cap: nat, cur: seq<Piece>,
                                          ps: seq<Piece>)
    requires style != Starred && cur != [] && base + |Text(cur)| <= cap && Roomy(ps, cap - base)
    requires cap <= BUFSIZE && |header| + 2 <= base + BUFSIZE - cap
    ensures var css := Chunks(base, cap, cur, ps);
            Flat(css) == cur + ps && Delivered(style, header, css, Lines(style, header, css))
  {
    var css := Chunks(base, cap, cur, ps);
    ChunksLossless(base, cap, cur, ps);
    ChunksStart(base, cap, cur, ps);
    LinesAt(style, header, css, 0);
    forall i | 0 <= i < |css|
      ensures css[i] != [] && Lines(style, header, css)[i] == header + Bodies(style, css)[i]
      ensures |Lines(style, header, css)[i]| + 2 <= BUFSIZE
    {
      ChunksFit(base, cap, cur, ps, i);
      LinesAt(style, header, css, i);
    }
  }

  lemma WatchText(nicks: seq<string>)
    requires nicks != []
    ensures Text(Tail(nicks, 0)) + " " == Spaced(nicks)
  {
    TailSpaced(nicks, 1);
    assert Tail(nicks, 0) == [LedPiece(nicks[0], true)] + Tail(nicks, 1);
    assert nicks[0] + Text(Tail(nicks, 1)) + " " == nicks[0] + (Text(Tail(nicks, 1)) + " ");
    assert nicks[0] + (" " + Spaced(nicks[1..])) == nicks[0] + " " + Spaced(nicks[1..]);
  }

  lemma HeadersAre(me: string, nick: string)
    ensures Header(me, "606", nick) == ":" + me + " 606 " + nick + " :"
    ensures Header(me, "281", nick) == ":" + me + " 281 " + nick + " :"
  {
  }

  lemma WhoisHeaderIs(me: string, nick: string, target: string)
    ensures WhoisHeader(me, nick, target) == ":" + me + " 319 " + nick + " " + target + " :"
  {
  }

  /** The lines of a WATCH listing together are the nicks, with a blank before each but the first. */
  lemma WatchListing(me: string, nick: string, nicks: seq<string>)
    requires Names(me, nick) && nicks != [] && forall i | 0 <= i < |nicks| :: |nicks[i]| <= NICKLEN
    ensures var css := WatchChunks(me, nick, nicks);
            && Delivered(Plain, ":" + me + " 606 " + nick + " :", css, Lines(Plain, Header(me, "606", nick), css))
            && AllFull(|me| + |nick| + 10, BUFSIZE - 2, css) && Flat(css) == Led(nicks, true)
            && Glued(Bodies(Plain, css)) + " " == Spaced(nicks)
  {
    TailIsLed(nicks, 0);
    assert nicks[0..] == nicks;
    ChunksAllFull(|me| + |nick| + 10, BUFSIZE - 2, [LedPiece(nicks[0], true)], Tail(nicks, 1));
    var cur, ps := [LedPiece(nicks[0], true)], Tail(nicks, 1);
    assert |nicks[0]| <= NICKLEN;
    TailFacts(nicks, 1, NICKLEN + 1);
    TextOne(cur[0]);
    LinesDelivered(Plain, Header(me, "606", nick), |nick| + |me| + 10, BUFSIZE - 2, cur, ps);
    GluedBodies(WatchChunks(me, nick, nicks));
    WatchText(nicks);
    assert Tail(nicks, 0) == cur + ps;
    HeadersAre(me, nick);
  }

  lemma {:induction false} TailSpaced(items: seq<string>, k: nat)
    requires 0 < k <= |items|
    ensures Text(Tail(items, k)) + " " == " " + Spaced(items[k..])
    decreases |items| - k
  {
    if k < |items| {
      TailSpaced(items, k + 1);
      assert items[k..][1..] == items[k + 1..];
      assert " " + items[k] + Text(Tail(items, k + 1)) + " " == " " + items[k] + (Text(Tail(items, k + 1)) + " ");
      assert " " + items[k] + (" " + Spaced(items[k + 1..])) == " " + (items[k] + " " + Spaced(items[k + 1..]));
    }
  }

  ghost predicate Blanked(ps: seq<Piece>) {
    forall j | 0 <= j < |ps| :: EndsBlank(ps[j].text)
  }

  lemma BlankedConcat(a: seq<Piece>, b: seq<Piece>)
    ensures Blanked(a + b) <==> Blanked(a) && Blanked(b)
  {
    var c := a + b;
    if Blanked(c) {
      forall j | 0 <= j < |a| ensures EndsBlank(a[j].text) {
        assert a[j] == c[j];
      }
      forall j | 0 <= j < |b| ensures EndsBlank(b[j].text) {
        assert b[j] == c[|a| + j];
      }
    }
  }

  /** Pieces that end in a blank make up lines that do. */
  lemma {:induction false} FlatBlank(css: seq<seq<Piece>>, i: nat)
    requires i < |css| && css[i] != [] && Blanked(Flat(css))
    ensures EndsBlank(Text(css[i]))
  {
    BlankedConcat(css[0], Flat(css[1..]));
    if i == 0 {
      TextBlank(css[0]);
    } else {
      FlatBlank(css[1..], i - 1);
    }
  }

  lemma {:induction false} TextBlank(ps: seq<Piece>)
    requires ps != [] && Blanked(ps)
    ensures EndsBlank(Text(ps))
  {
    if |ps| == 1 {
      TextOne(ps[0]);
      assert ps == [ps[0]];
    } else {
      TextBlank(ps[1..]);
    }
  }

  /** What holds for both packers that cut off a blank. */
  lemma TrimmedListing(header: string, base: nat, cap: nat, limit: int, ps: seq<Piece>)
    requires ps != [] && Roomy(ps, limit) && limit <= cap - base && Blanked(ps)
    requires cap <= BUFSIZE && |header| + 2 <= base + BUFSIZE - cap
    ensures var css := Chunks(base, cap, [], ps);
            && Delivered(Trimmed, header, css, Lines(Trimmed, header, css))
            && Flat(css) == ps && Spaced(Bodies(Trimmed, css)) == Text(ps)
  {
    assert ps[0].room <= limit && [] + [ps[0]] == [ps[0]];
    TextOne(ps[0]);
    LinesDelivered(Trimmed, header, base, cap, [ps[0]], ps[1..]);
    var css := Chunks(base, cap, [], ps);
    assert css == Chunks(base, cap, [ps[0]], ps[1..]);
    forall i | 0 <= i < |css| ensures EndsBlank(Text(css[i])) {
      FlatBlank(css, i);
    }
    SpacedBodies(css);
  }

  /** The masks on an accept list, and the channels a requester may see, as texts. */
  ghost function MaskTexts(masks: seq<Mask>, k: nat): (r: seq<string>)
    requires k <= |masks|
    ensures |r| == |masks| - k
    ensures forall i | 0 <= i < |r| :: r[i] == masks[k + i].nick + "!" + masks[k + i].user + "@" + masks[k + i].host
    decreases |masks| - k
  {
    if k == |masks| then [] else [MaskText(masks[k])] + MaskTexts(masks, k + 1)
  }

  ghost function ChannelTexts(v: Viewer, ms: seq<Membership>, k: nat): seq<string>
    requires k <= |ms|
    decreases |ms| - k
  {
    if k == |ms| then []
    else if CanSee(v, ms[k]) == 0 then ChannelTexts(v, ms, k + 1)
    else [ChannelText(v, ms[k])] + ChannelTexts(v, ms, k + 1)
  }

  /**
   The channels as the requester reads them: with a tilde those that only an administrator sees.  The
   others are public channels of a target who does not hide them, those of oneself, and shared ones.
   */
  ghost function Readable(v: Viewer, ms: seq<Membership>): seq<string> {
    if ms == [] then []
    else
      var m := ms[0];
      if v.same || m.shared || (m.pub && !v.hidesChannels) then [m.status + m.channel] + Readable(v, ms[1..])
      else if v.admin then ["~" + m.status + m.channel] + Readable(v, ms[1..])
      else Readable(v, ms[1..])
  }

  /** The length of the name of each channel that is read. */
  ghost function NameLengths(v: Viewer, ms: seq<Membership>): seq<nat> {
    if ms == [] then []
    else
      var m := ms[0];
      if v.same || m.shared || (m.pub && !v.hidesChannels) || v.admin then [|m.channel|] + NameLengths(v, ms[1..])
      else NameLengths(v, ms[1..])
  }

  /** Each is followed by a blank, and room is set aside for its name and five characters more. */
  ghost predicate ReadPieces(ps: seq<Piece>, texts: seq<string>, lengths: seq<nat>) {
    |ps| == |texts| == |lengths| && forall i | 0 <= i < |ps| :: ps[i] == Piece(texts[i] + " ", lengths[i] + 5)
  }

  lemma {:induction false} TextsAreReadable(v: Viewer, ms: seq<Membership>, k: nat)
    requires k <= |ms|
    ensures ChannelTexts(v, ms, k) == Readable(v, ms[k..])
    ensures ReadPieces(ChannelPieces(v, ms, k), Readable(v, ms[k..]), NameLengths(v, ms[k..]))
    decreases |ms| - k
  {
    if k < |ms| {
      assert ms[k..][1..] == ms[k + 1..];
      assert "" + ms[k].status + ms[k].channel == ms[k].status + ms[k].channel;
      TextsAreReadable(v, ms, k + 1);
    }
  }

  /** One piece, and the item it stands for, in front of others. */
  lemma FollowedCons(item: string, room: nat, limit: nat, ps: seq<Piece>, items: seq<string>)
    requires |item| + 1 <= room <= limit && Roomy(ps, limit) && Blanked(ps) && Text(ps) == Spaced(items)
    ensures Roomy([Followed(item, room)] + ps, limit) && Blanked([Followed(item, room)] + ps)
    ensures Text([Followed(item, room)] + ps) == Spaced([item] + items)
  {
    BlankedConcat([Followed(item, room)], ps);
    assert ([Followed(item, room)] + ps)[1..] == ps && ([item] + items)[1..] == items;
  }

  lemma {:induction false} MaskPieceFacts(masks: seq<Mask>, k: nat)
    requires k <= |masks| && forall i | 0 <= i < |masks| :: MaskOk(masks[i])
    ensures Roomy(MaskPieces(masks, k), NICKLEN + USERLEN + HOSTLEN + 3) && Blanked(MaskPieces(masks, k))
    ensures Text(MaskPieces(masks, k)) == Spaced(MaskTexts(masks, k))
    decreases |masks| - k
  {
    if k < |masks| {
      MaskFits(masks[k]);
      MaskPieceFacts(masks, k + 1);
      FollowedCons(MaskText(masks[k]), |MaskText(masks[k])| + 1, NICKLEN + USERLEN + HOSTLEN + 3,
                   MaskPieces(masks, k + 1), MaskTexts(masks, k + 1));
    }
  }

  lemma {:induction false} MaskPiecesAt(masks: seq<Mask>, k: nat)
    requires k <= |masks|
    ensures |MaskPieces(masks, k)| == |masks| - k
    ensures forall i | 0 <= i < |masks| - k :: MaskPieces(masks, k)[i] == Whole(MaskTexts(masks, k)[i] + " ")
    decreases |masks| - k
  {
    if k < |masks| {
      MaskPiecesAt(masks, k + 1);
    }
  }

  /** The lines of an accept list hold every mask in order, and with blanks between them nothing else. */
  lemma AcceptListing(me: string, nick: string, masks: seq<Mask>)
    requires Names(me, nick) && masks != [] && forall i | 0 <= i < |masks| :: MaskOk(masks[i])
    ensures var css := AcceptChunks(me, nick, masks);
            && Delivered(Trimmed, ":" + me + " 281 " + nick + " :", css, Lines(Trimmed, Header(me, "281", nick), css))
            && AllFull(|me| + |nick| + 10, BUFSIZE, css) && |Flat(css)| == |masks|
            && (forall i | 0 <= i < |masks| :: Flat(css)[i] == Whole(MaskTexts(masks, 0)[i] + " "))
            && Spaced(Bodies(Trimmed, css)) == Spaced(MaskTexts(masks, 0))
  {
    MaskPiecesAt(masks, 0);
    ChunksAllFull(|me| + |nick| + 10, BUFSIZE, [], MaskPieces(masks, 0));
    MaskPieceFacts(masks, 0);
    TrimmedListing(Header(me, "281", nick), |me| + |nick| + 10, BUFSIZE, NICKLEN + USERLEN + HOSTLEN + 3,
                   MaskPieces(masks, 0));
    HeadersAre(me, nick);
  }

  lemma {:induction false} ChannelPieceFacts(v: Viewer, ms: seq<Membership>, k: nat)
    requires k <= |ms| && forall i | 0 <= i < |ms| :: MembershipOk(ms[i])
    ensures Roomy(ChannelPieces(v, ms, k), CHANNELLEN + 5) && Blanked(ChannelPieces(v, ms, k))
    ensures Text(ChannelPieces(v, ms, k)) == Spaced(ChannelTexts(v, ms, k))
    decreases |ms| - k
  {
    if k < |ms| {
      ChannelFits(v, ms[k]);
      ChannelPieceFacts(v, ms, k + 1);
      if CanSee(v, ms[k]) != 0 {
        FollowedCons(ChannelText(v, ms[k]), |ms[k].channel| + 5, CHANNELLEN + 5,
                     ChannelPieces(v, ms, k + 1), ChannelTexts(v, ms, k + 1));
      }
    }
  }

  /** The lines of a WHOIS hold every channel that the requester may see, in order. */
  lemma WhoisListing(me: string, nick: string, target: string, v: Viewer, ms: seq<Membership>)
    requires Names(me, nick) && |target| <= NICKLEN && forall i | 0 <= i < |ms| :: MembershipOk(ms[i])
    requires Readable(v, ms) != []
    ensures var css := WhoisChunks(me, nick, target, v, ms); var header := WhoisHeader(me, nick, target);
            && header == ":" + me + " 319 " + nick + " " + target + " :"
            && Delivered(Trimmed, header, css, Lines(Trimmed, header, css))
            && AllFull(|header|, BUFSIZE - 2, css) && ReadPieces(Flat(css), Readable(v, ms), NameLengths(v, ms))
            && Spaced(Bodies(Trimmed, css)) == Spaced(Readable(v, ms))
  {
    ChunksAllFull(|WhoisHeader(me, nick, target)|, BUFSIZE - 2, [], ChannelPieces(v, ms, 0));
    TextsAreReadable(v, ms, 0);
    assert ms[0..] == ms;
    WhoisHeaderIs(me, nick, target);
    ChannelPieceFacts(v, ms, 0);
    TrimmedListing(WhoisHeader(me, nick, target), |WhoisHeader(me, nick, target)|, BUFSIZE - 2, CHANNELLEN + 5,
                   ChannelPieces(v, ms, 0));
  }
}
