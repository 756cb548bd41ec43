/**
 The game lobby: the 72-byte record of a hosted game, the two tables it is entered in, the sweep
 that drops games after five minutes, and the listing of a channel.

 Tables are maps from their keys, which the database numbers upward; encryption and escaping are not
 part of this model, so a table row holds the plain record.
 */
module Games {
  type Byte = x: int | 0 <= x < 256

  // ---------------------------------------------------------------------------------------
  // The record
  // ---------------------------------------------------------------------------------------

  const NAMELEN := 20
  const WORD := 0x1_0000_0000

  datatype Game = Game(name: seq<Byte>, nick: seq<Byte>, ip: int, id: int, location: int, usage: int,
                       isPassword: int, rank: int, now: int, until: int)

  /** str_pad with NUL, which does not shorten. */
  function Pad(s: seq<Byte>): seq<Byte> {
    if |s| >= NAMELEN then s else s + seq(NAMELEN - |s|, _ => 0)
  }

  /** pack("N"): the low 32 bits, highest byte first. */
  function PackN(v: int): seq<Byte> {
    var w := v % WORD;
    var a := w / 0x100;
    var b := a / 0x100;
    [b / 0x100, b % 0x100, a % 0x100, w % 0x100]
  }

  function Words(g: Game): seq<int> {
    [g.ip, g.id, g.location, g.usage, g.isPassword, g.rank, g.now, g.until]
  }

  function PackWords(ws: seq<int>): seq<Byte> {
    if ws == [] then [] else PackN(ws[0]) + PackWords(ws[1..])
  }

  function Pack(g: Game): seq<Byte> {
    Pad(g.name) + Pad(g.nick) + PackWords(Words(g))
  }

  /** What a reader takes from the fixed places of a record. */
  function UnpackN(b: seq<Byte>): int
    requires |b| >= 4
  {
    var high: int := b[0];
    var upper: int := high * 0x100 + b[1];
    var lower: int := upper * 0x100 + b[2];
    lower * 0x100 + b[3]
  }

  function Unpad(b: seq<Byte>): seq<Byte> {
    if b == [] || b[|b| - 1] != 0 then b else Unpad(b[..|b| - 1])
  }

  function WordAt(b: seq<Byte>, k: nat): int
    requires |b| >= 72 && k < 8
  {
    UnpackN(b[40 + 4 * k..])
  }

  function Unpack(b: seq<Byte>): Game
    requires |b| >= 72
  {
    Game(Unpad(b[..20]), Unpad(b[20..40]), WordAt(b, 0), WordAt(b, 1), WordAt(b, 2), WordAt(b, 3), WordAt(b, 4),
         WordAt(b, 5), WordAt(b, 6), WordAt(b, 7))
  }

  ghost predicate NameFits(s: seq<Byte>) {
    |s| <= NAMELEN && (s != [] ==> s[|s| - 1] != 0)
  }

  ghost predicate Fits(g: Game) {
    NameFits(g.name) && NameFits(g.nick) && forall i | 0 <= i < 8 :: 0 <= Words(g)[i] < WORD
  }

  lemma UnpackPackN(v: int)
    ensures UnpackN(PackN(v)) == v % WORD
  {
    var w := v % WORD;
    var a := w / 0x100;
    var b := a / 0x100;
    assert b / 0x100 * 0x100 + b % 0x100 == b;
    assert b * 0x100 + a % 0x100 == a;
  }

  lemma {:induction false} UnpadRange(b: seq<Byte>)
    ensures |Unpad(b)| <= |b| && (Unpad(b) != [] ==> Unpad(b)[|Unpad(b)| - 1] != 0)
    ensures b != [] && b[|b| - 1] != 0 ==> Unpad(b) == b
  {
    if b != [] && b[|b| - 1] == 0 {
      UnpadRange(b[..|b| - 1]);
    }
  }

  lemma {:induction false} UnpadZeros(s: seq<Byte>, n: nat)
    ensures Unpad(s + seq(n, _ => 0)) == Unpad(s)
  {
    var b := s + seq(n, _ => 0);
    if n == 0 {
      assert b == s;
    } else {
      assert b[..|b| - 1] == s + seq(n - 1, _ => 0);
      UnpadZeros(s, n - 1);
    }
  }

  lemma UnpadPad(s: seq<Byte>)
    requires NameFits(s)
    ensures |Pad(s)| == NAMELEN && Unpad(Pad(s)) == s
  {
    if |s| < NAMELEN {
      UnpadZeros(s, NAMELEN - |s|);
    }
    UnpadRange(s);
  }

  lemma {:induction false} PackWordsAt(ws: seq<int>, k: nat)
    requires k < |ws|
    ensures |PackWords(ws)| == 4 * |ws|
    ensures PackWords(ws)[4 * k..4 * k + 4] == PackN(ws[k])
  {
    var b := PackWords(ws);
    var rest := PackWords(ws[1..]);
    if |ws| == 1 {
      assert ws[1..] == [];
    }
    if k > 0 {
      PackWordsAt(ws[1..], k - 1);
      assert b[4 * k..4 * k + 4] == rest[4 * (k - 1)..4 * (k - 1) + 4];
    } else if |ws| > 1 {
      PackWordsAt(ws[1..], 0);
    }
  }

  lemma PackParts(g: Game)
    requires |g.name| <= NAMELEN && |g.nick| <= NAMELEN
    ensures |Pack(g)| == 72 && Pack(g)[..20] == Pad(g.name) && Pack(g)[20..40] == Pad(g.nick)
    ensures forall k: nat | k < 8 :: WordAt(Pack(g), k) == Words(g)[k] % WORD
  {
    var b := Pack(g);
    PackWordsAt(Words(g), 0);
    forall k: nat | k < 8 ensures WordAt(b, k) == Words(g)[k] % WORD {
      PackWordsAt(Words(g), k);
      UnpackPackN(Words(g)[k]);
      assert b[40..] == PackWords(Words(g));
      assert b[40 + 4 * k..][..4] == b[40..][4 * k..4 * k + 4] == PackN(Words(g)[k]);
    }
  }

  lemma RecordLength(g: Game)
    ensures |Pack(g)| >= 72
  {
    PackWordsAt(Words(g), 0);
  }

  lemma NamesReadBack(g: Game)
    requires NameFits(g.name) && NameFits(g.nick) && |Pack(g)| >= 72
    ensures Unpack(Pack(g)).name == g.name && Unpack(Pack(g)).nick == g.nick
  {
    PackParts(g);
    UnpadPad(g.name);
    UnpadPad(g.nick);
  }

  lemma WordsReadBack(g: Game, i: nat)
    requires |g.name| <= NAMELEN && |g.nick| <= NAMELEN && |Pack(g)| >= 72 && i < 8
    ensures Words(Unpack(Pack(g)))[i] == Words(g)[i] % WORD
  {
    PackParts(g);
    assert WordAt(Pack(g), i) == Words(Unpack(Pack(g)))[i];
  }

  lemma FittingReadBack(g: Game)
    requires Fits(g) && |Pack(g)| >= 72
    ensures Unpack(Pack(g)) == g
  {
    NamesReadBack(g);
    var h := Unpack(Pack(g));
    forall i | 0 <= i < 8 ensures Words(g)[i] == Words(h)[i] {
      FittingWord(g, i, h);
    }
    SameWords(g, h);
  }

  lemma FittingWord(g: Game, i: nat, h: Game)
    requires Fits(g) && |Pack(g)| >= 72 && h == Unpack(Pack(g)) && i < 8
    ensures Words(g)[i] == Words(h)[i]
  {
    WordsReadBack(g, i);
    SmallWord(Words(g)[i], Words(h)[i]);
  }

  lemma SmallWord(w: int, r: int)
    requires 0 <= w < WORD && r == w % WORD
    ensures r == w
  {
  }

  lemma ReadBackFits(g: Game)
    requires |Pack(g)| >= 72 && Unpack(Pack(g)) == g
    ensures Fits(g)
  {
    UnpadRange(Pack(g)[..20]);
    UnpadRange(Pack(g)[20..40]);
    assert NameFits(g.name) && NameFits(g.nick);
    forall i | 0 <= i < 8 ensures 0 <= Words(g)[i] < WORD {
      WordsReadBack(g, i);
    }
  }

  /** A record is read back exactly when everything fits its place. */
  lemma RoundTripExactly(g: Game)
    ensures |Pack(g)| >= 72 && (Unpack(Pack(g)) == g <==> Fits(g))
  {
    RecordLength(g);
    if Fits(g) {
      FittingReadBack(g);
    } else if Unpack(Pack(g)) == g {
      ReadBackFits(g);
    }
  }

  lemma SameWords(g: Game, h: Game)
    requires g.name == h.name && g.nick == h.nick && forall i | 0 <= i < 8 :: Words(g)[i] == Words(h)[i]
    ensures g == h
  {
    assert Words(g)[0] == g.ip && Words(g)[1] == g.id && Words(g)[2] == g.location && Words(g)[3] == g.usage;
    assert Words(g)[4] == g.isPassword && Words(g)[5] == g.rank && Words(g)[6] == g.now && Words(g)[7] == g.until;
  }

  // ---------------------------------------------------------------------------------------
  // The tables
  // ---------------------------------------------------------------------------------------

  /** What a host announces: the columns of HostGames. */
  datatype HostRow = HostRow(name: seq<Byte>, nick: seq<Byte>, ip: int, location: int, rank: int, hasPassword: bool,
                             channel: string, time: int)

  datatype Entry = Entry(game: nat, record: seq<Byte>, channel: string, time: int)

  /** HostGames and EncryptedHost, and the numbers their next rows get. */
  datatype Tables = Tables(hosts: map<nat, HostRow>, entries: map<nat, Entry>, nextGame: nat, nextEntry: nat)

  const EMPTY := Tables(map[], map[], 0, 0)
  const LIFETIME := 300

  /** The fields of the record of a game: it can be chosen, for two hours. */
  function GameOf(row: HostRow, id: int): Game {
    Game(row.name, row.nick, row.ip, id, row.location, 1, if row.hasPassword then 1 else 0, row.rank,
         row.time, row.time + 2 * 60 * 60)
  }

  function EntryOf(row: HostRow, id: nat): Entry {
    Entry(id, Pack(GameOf(row, id)), row.channel, row.time)
  }

  /** Every entry is the one made from the host row of its game, and a game has one entry at most. */
  ghost predicate TablesOk(t: Tables) {
    && (forall e | e in t.entries :: e < t.nextEntry && EntryOk(t, t.entries[e]))
    && (forall h | h in t.hosts :: h < t.nextGame)
    && (forall e, f | e in t.entries && f in t.entries && t.entries[e].game == t.entries[f].game :: e == f)
  }

  ghost predicate EntryOk(t: Tables, r: Entry) {
    r.game in t.hosts && r == EntryOf(t.hosts[r.game], r.game)
  }

  /** addGameToTable. */
  ghost function Added(t: Tables, row: HostRow): Tables {
    Tables(t.hosts[t.nextGame := row], t.entries[t.nextEntry := EntryOf(row, t.nextGame)],
           t.nextGame + 1, t.nextEntry + 1)
  }

  ghost function Of(t: Tables, game: int): set<nat> {
    set e | e in t.entries && t.entries[e].game == game
  }

  /** deleteGame: a failed game keeps its host row, and so does one that is closed under another name. */
  ghost function Deleted(t: Tables, game: int, name: seq<Byte>, failed: bool): Tables {
    var gone := set h | h in t.hosts && h == game && !failed && t.hosts[h].name == name;
    t.(hosts := t.hosts - gone, entries := if |Of(t, game)| == 1 then t.entries - Of(t, game) else t.entries)
  }

  /** The sweep looks at every entry once, at some time; clock gives that time. */
  ghost predicate Stale(e: Entry, now: int) {
    now - e.time > LIFETIME || e.time - now > LIFETIME
  }

  ghost function StaleEntries(t: Tables, clock: map<nat, int>): set<nat> {
    set e | e in t.entries && e in clock && Stale(t.entries[e], clock[e])
  }

  ghost function GamesOf(t: Tables, es: set<nat>): set<nat> {
    set e | e in es && e in t.entries :: t.entries[e].game
  }

  ghost function Pruned(t: Tables, es: set<nat>): Tables {
    t.(entries := t.entries - es, hosts := t.hosts - GamesOf(t, es))
  }

  ghost function Swept(t: Tables, clock: map<nat, int>): Tables {
    Pruned(t, StaleEntries(t, clock))
  }

  lemma AddedOk(t: Tables, row: HostRow)
    requires TablesOk(t)
    ensures TablesOk(Added(t, row))
  {
    var u := Added(t, row);
    forall e | e in u.entries ensures e < u.nextEntry && EntryOk(u, u.entries[e]) {
      assert e in t.entries ==> EntryOk(t, t.entries[e]);
    }
  }

  lemma OnlyEntry(t: Tables, e: nat)
    requires TablesOk(t) && e in t.entries
    ensures Of(t, t.entries[e].game) == {e}
  {
  }

  lemma DeletedOk(t: Tables, game: int, name: seq<Byte>, failed: bool)
    requires TablesOk(t)
    ensures TablesOk(Deleted(t, game, name, failed))
    ensures Of(Deleted(t, game, name, failed), game) == {}
  {
    var u := Deleted(t, game, name, failed);
    forall e | e in t.entries && t.entries[e].game == game ensures e !in u.entries {
      OnlyEntry(t, e);
    }
    forall e | e in u.entries ensures e < u.nextEntry && EntryOk(u, u.entries[e]) {
      assert EntryOk(t, t.entries[e]);
    }
  }

  lemma SweptOk(t: Tables, clock: map<nat, int>)
    requires TablesOk(t)
    ensures TablesOk(Swept(t, clock))
  {
    var u := Swept(t, clock);
    forall e | e in u.entries ensures e < u.nextEntry && EntryOk(u, u.entries[e]) {
      assert e in t.entries && EntryOk(t, t.entries[e]);
    }
  }

  // ---------------------------------------------------------------------------------------
  // Runs
  // ---------------------------------------------------------------------------------------

  datatype Event =
    | Create(row: HostRow)
    | Delete(game: int, name: seq<Byte>, failed: bool)
    | Sweep(clock: map<nat, int>)

  ghost function Step(t: Tables, e: Event): Tables {
    match e
    case Create(row) => Added(t, row)
    case Delete(game, name, failed) => Deleted(t, game, name, failed)
    case Sweep(clock) => Swept(t, clock)
  }

  /** Event i leads from the tables before it to those after it. */
  ghost predicate Leads(ts: seq<Tables>, es: seq<Event>, i: nat) {
    i < |es| && i + 1 < |ts| && ts[i + 1] == Step(ts[i], es[i])
  }

  /** The tables before and after every event of a run that begins with empty ones. */
  ghost predicate Run(ts: seq<Tables>, es: seq<Event>) {
    |ts| == |es| + 1 && ts[0] == EMPTY && forall i: nat | i < |es| :: Leads(ts, es, i)
  }

  /** Every game that is offered has its host row, and is offered once, over every run. */
  lemma {:induction false} RunOk(ts: seq<Tables>, es: seq<Event>, n: nat)
    requires Run(ts, es) && n < |ts|
    ensures TablesOk(ts[n])
  {
    if n > 0 {
      RunOk(ts, es, n - 1);
      assert Leads(ts, es, n - 1);
      StepOk(ts[n - 1], es[n - 1]);
    }
  }

  lemma StepOk(t: Tables, e: Event)
    requires TablesOk(t)
    ensures TablesOk(Step(t, e))
  {
    match e
    case Create(row) => AddedOk(t, row);
    case Delete(game, name, failed) => DeletedOk(t, game, name, failed);
    case Sweep(clock) => SweptOk(t, clock);
  }

  /** Whatever has happened, an entry's record reads back as its game exactly if that fits the record. */
  lemma RecordReadBack(ts: seq<Tables>, es: seq<Event>, n: nat, e: nat)
    requires Run(ts, es) && n < |ts| && e in ts[n].entries
    ensures var r := ts[n].entries[e];
            && r.game in ts[n].hosts && |r.record| >= 72
            && (Unpack(r.record) == GameOf(ts[n].hosts[r.game], r.game) <==> Fits(GameOf(ts[n].hosts[r.game], r.game)))
  {
    RunOk(ts, es, n);
    var r := ts[n].entries[e];
    assert EntryOk(ts[n], r);
    RoundTripExactly(GameOf(ts[n].hosts[r.game], r.game));
  }

  /** The bytes that a name takes: twenty, or more if it is longer. */
  function Wide(s: seq<Byte>): nat {
    if |s| < 20 then 20 else |s|
  }

  /** A name at a place of a record, filled up with NULs. */
  ghost predicate NameIs(b: seq<Byte>, at: nat, s: seq<Byte>) {
    at + Wide(s) <= |b| && forall i | 0 <= i < Wide(s) :: b[at + i] == if i < |s| then s[i] else 0
  }

  /** A number at a place of a record, highest byte first and only its low 32 bits. */
  ghost predicate NumberIs(b: seq<Byte>, at: nat, v: int) {
    at + 4 <= |b| &&
    var b0: int, b1: int, b2: int, b3: int := b[at], b[at + 1], b[at + 2], b[at + 3];
    ((b0 * 256 + b1) * 256 + b2) * 256 + b3 == v % 0x1_0000_0000
  }

  lemma PadIs(s: seq<Byte>, b: seq<Byte>, at: nat)
    requires at + Wide(s) <= |b| && b[at..at + Wide(s)] == Pad(s)
    ensures NameIs(b, at, s)
  {
    forall i | 0 <= i < Wide(s) ensures b[at + i] == if i < |s| then s[i] else 0 {
      assert b[at + i] == b[at..at + Wide(s)][i];
    }
  }

  lemma WordIs(b: seq<Byte>, at: nat, v: int)
    requires at + 4 <= |b| && b[at..at + 4] == PackN(v)
    ensures NumberIs(b, at, v)
  {
    UnpackPackN(v);
    var c := b[at..at + 4];
    assert c[0] == b[at] && c[1] == b[at + 1] && c[2] == b[at + 2] && c[3] == b[at + 3];
  }

  /** The eight numbers of a record, in their order. */
  ghost predicate NumbersAre(b: seq<Byte>, at: nat, row: HostRow, game: nat) {
    && NumberIs(b, at, row.ip) && NumberIs(b, at + 4, game) && NumberIs(b, at + 8, row.location)
    && NumberIs(b, at + 12, 1) && NumberIs(b, at + 16, if row.hasPassword then 1 else 0)
    && NumberIs(b, at + 20, row.rank) && NumberIs(b, at + 24, row.time) && NumberIs(b, at + 28, row.time + 7200)
  }

  lemma PackedNumber(b: seq<Byte>, at: nat, ws: seq<int>, k: nat, v: int)
    requires at <= |b| && b[at..] == PackWords(ws) && k < |ws| && v == ws[k]
    ensures NumberIs(b, at + 4 * k, v)
  {
    var p := at + 4 * k;
    PackWordsAt(ws, k);
    SubSlice(b, at, 4 * k, p);
    WordIs(b, p, v);
  }

  lemma SubSlice<X>(b: seq<X>, at: nat, i: nat, p: nat)
    requires p == at + i && p + 4 <= |b|
    ensures b[p..p + 4] == b[at..][i..i + 4]
  {
  }

  lemma PackedNumbers(b: seq<Byte>, at: nat, row: HostRow, game: nat)
    requires at <= |b| && b[at..] == PackWords(Words(GameOf(row, game)))
    ensures NumbersAre(b, at, row, game)
  {
    var g := GameOf(row, game);
    var ws := Words(g);
    PackedNumber(b, at, ws, 0, g.ip);
    PackedNumber(b, at, ws, 1, g.id);
    PackedNumber(b, at, ws, 2, g.location);
    PackedNumber(b, at, ws, 3, g.usage);
    PackedNumber(b, at, ws, 4, g.isPassword);
    PackedNumber(b, at, ws, 5, g.rank);
    PackedNumber(b, at, ws, 6, g.now);
    PackedNumber(b, at, ws, 7, g.until);
  }

  /** The parts of a record, whatever the length of the names: a longer name moves what is behind it. */
  lemma PackLayout(g: Game)
    ensures var b, n, m := Pack(g), Wide(g.name), Wide(g.nick);
            && |b| == n + m + 32 && NameIs(b, 0, g.name) && NameIs(b, n, g.nick)
            && b[n + m..] == PackWords(Words(g))
  {
    var b, n, m := Pack(g), Wide(g.name), Wide(g.nick);
    PackWordsAt(Words(g), 0);
    assert b[..n] == Pad(g.name) && b[n..n + m] == Pad(g.nick);
    PadIs(g.name, b, 0);
    PadIs(g.nick, b, n);
  }

  /**
   Over every run the record that is offered for a game, byte by byte: names, address, the number of the
   game, place, use, whether there is a password, rank, and the two hours that it is offered for.
   */
  lemma RecordBytes(ts: seq<Tables>, es: seq<Event>, n: nat, e: nat)
    requires Run(ts, es) && n < |ts| && e in ts[n].entries
    ensures var r := ts[n].entries[e];
            && r.game in ts[n].hosts
            && var row := ts[n].hosts[r.game]; var a, b := Wide(row.name), Wide(row.nick);
            && r.channel == row.channel && r.time == row.time && |r.record| == a + b + 32
            && NameIs(r.record, 0, row.name) && NameIs(r.record, a, row.nick)
            && NumbersAre(r.record, a + b, row, r.game)
  {
    RunOk(ts, es, n);
    var r := ts[n].entries[e];
    assert EntryOk(ts[n], r);
    var row := ts[n].hosts[r.game];
    PackLayout(GameOf(row, r.game));
    PackedNumbers(r.record, Wide(row.name) + Wide(row.nick), row, r.game);
  }

  /** A close takes away the entry of its game and, if it succeeded under the name of the game, the host row. */
  lemma DeletedExactly(t: Tables, game: int, name: seq<Byte>, failed: bool)
    requires TablesOk(t)
    ensures var u := Deleted(t, game, name, failed);
            && (forall e :: e in u.entries <==> e in t.entries && t.entries[e].game != game)
            && (forall e | e in u.entries :: u.entries[e] == t.entries[e])
            && (forall h :: h in u.hosts <==> h in t.hosts && !(h == game && !failed && t.hosts[h].name == name))
            && (forall h | h in u.hosts :: u.hosts[h] == t.hosts[h])
  {
    forall e | e in t.entries && t.entries[e].game == game ensures Of(t, game) == {e} {
      OnlyEntry(t, e);
    }
  }

  /** A sweep takes away the entries that are more than 300 seconds from its clock, each with its host row. */
  lemma SweptExactly(t: Tables, clock: map<nat, int>, u: Tables)
    requires TablesOk(t) && clock.Keys == t.entries.Keys && u == Swept(t, clock)
    ensures forall e :: e in u.entries <==> e in t.entries && -300 <= clock[e] - t.entries[e].time <= 300
    ensures forall e | e in u.entries :: u.entries[e] == t.entries[e]
    ensures forall h | h in u.hosts :: h in t.hosts && u.hosts[h] == t.hosts[h]
    ensures forall h | h in t.hosts :: h !in u.hosts <==> HasStale(t, clock, h)
  {
    SweptEntries(t, clock);
    forall h | h in t.hosts ensures h !in u.hosts <==> HasStale(t, clock, h) {
      GoneExactly(t, clock, h);
    }
  }

  ghost predicate HasStale(t: Tables, clock: map<nat, int>, h: nat)
    requires clock.Keys == t.entries.Keys
  {
    exists e :: e in t.entries && t.entries[e].game == h && !(-300 <= clock[e] - t.entries[e].time <= 300)
  }

  lemma GoneExactly(t: Tables, clock: map<nat, int>, h: nat)
    requires clock.Keys == t.entries.Keys
    ensures h in GamesOf(t, StaleEntries(t, clock)) <==> HasStale(t, clock, h)
  {
    if e :| e in t.entries && t.entries[e].game == h && !(-300 <= clock[e] - t.entries[e].time <= 300) {
      assert e in StaleEntries(t, clock);
    }
  }

  // ---------------------------------------------------------------------------------------
  // Host rows that are left behind
  // ---------------------------------------------------------------------------------------

  /** A host row without an entry. */
  ghost predicate Orphan(t: Tables, game: nat) {
    game in t.hosts && Of(t, game) == {}
  }

  /** A close that fails, or that gives another name than the game's own: the entry goes, the row stays. */
  ghost predicate Abandons(t: Tables, e: Event, game: nat) {
    e.Delete? && e.game == game && game in t.hosts && (e.failed || e.name != t.hosts[game].name)
  }

  /** A close that succeeds, under the game's own name. */
  ghost predicate Closes(t: Tables, e: Event, game: nat) {
    e.Delete? && e.game == game && game in t.hosts && !e.failed && e.name == t.hosts[game].name
  }

  /** A close leaves the host row of an offered game behind exactly when it failed or gave another name. */
  lemma OrphanExactly(t: Tables, game: nat, name: seq<Byte>, failed: bool)
    requires TablesOk(t) && Of(t, game) != {}
    ensures game in t.hosts
    ensures Orphan(Deleted(t, game, name, failed), game) <==> failed || t.hosts[game].name != name
  {
    var e :| e in Of(t, game);
    assert EntryOk(t, t.entries[e]);
    DeletedOk(t, game, name, failed);
  }

  /** Of all events only such a close does that to an offered game. */
  lemma OfferedStep(t: Tables, e: Event, game: nat)
    requires TablesOk(t) && Of(t, game) != {}
    ensures Orphan(Step(t, e), game) <==> Abandons(t, e, game)
  {
    var u := Step(t, e);
    var f :| f in Of(t, game);
    assert EntryOk(t, t.entries[f]);
    match e
    case Create(row) =>
      assert f in Of(u, game);
    case Delete(g, name, failed) =>
      if g == game {
        OrphanExactly(t, game, name, failed);
      } else {
        assert f in Of(u, game);
      }
    case Sweep(clock) =>
      if f in StaleEntries(t, clock) {
        assert game in GamesOf(t, StaleEntries(t, clock));
      } else {
        assert f in Of(u, game);
      }
  }

  /** A game that is not in the tables does not come up as an orphan. */
  lemma UnknownStep(t: Tables, e: Event, game: nat)
    requires TablesOk(t) && game !in t.hosts
    ensures !Orphan(Step(t, e), game)
  {
    if e.Create? && game == t.nextGame {
      assert t.nextEntry in Of(Step(t, e), game);
    }
  }

  lemma StepOrphan(t: Tables, e: Event, game: nat)
    requires TablesOk(t) && Orphan(t, game)
    ensures Orphan(Step(t, e), game) <==> !Closes(t, e, game)
    ensures game in Step(t, e).hosts ==> Step(t, e).hosts[game] == t.hosts[game]
  {
    var u := Step(t, e);
    forall f | f in u.entries ensures u.entries[f].game != game {
      if f in t.entries {
        assert f !in Of(t, game);
        assert u.entries[f] == t.entries[f];
      }
    }
    assert Of(u, game) == {};
    if e.Sweep? {
      forall f | f in StaleEntries(t, e.clock) ensures t.entries[f].game != game {
        assert f !in Of(t, game);
      }
    }
  }

  /** No event from m on, up to n, closes the game under its own name. */
  ghost predicate NotClosed(ts: seq<Tables>, es: seq<Event>, m: nat, n: nat, game: nat)
    requires n <= |es| && |ts| == |es| + 1
  {
    forall j: nat | m <= j < n :: !Closes(ts[j], es[j], game)
  }

  /** A host row that was left behind stays until the game is closed under its own name; no sweep removes it. */
  lemma {:induction false} OrphanStays(ts: seq<Tables>, es: seq<Event>, m: nat, n: nat, game: nat)
    requires Run(ts, es) && m <= n <= |es| && Orphan(ts[m], game) && NotClosed(ts, es, m, n, game)
    ensures Orphan(ts[n], game) && ts[n].hosts[game] == ts[m].hosts[game]
  {
    if m < n {
      OrphanStays(ts, es, m, n - 1, game);
      RunOk(ts, es, n - 1);
      assert Leads(ts, es, n - 1);
      StepOrphan(ts[n - 1], es[n - 1], game);
    }
  }

  /** The game was offered and abandoned by event i, and not closed under its own name since. */
  ghost predicate AbandonedAt(ts: seq<Tables>, es: seq<Event>, i: nat, n: nat, game: nat)
    requires i < n <= |es| && |ts| == |es| + 1
  {
    Of(ts[i], game) != {} && Abandons(ts[i], es[i], game) && NotClosed(ts, es, i + 1, n, game)
  }

  lemma AbandonedStays(ts: seq<Tables>, es: seq<Event>, i: nat, n: nat, game: nat)
    requires Run(ts, es) && i < n <= |es| && AbandonedAt(ts, es, i, n, game)
    ensures Orphan(ts[n], game)
  {
    RunOk(ts, es, i);
    assert Leads(ts, es, i);
    OfferedStep(ts[i], es[i], game);
    OrphanStays(ts, es, i + 1, n, game);
  }

  /** An orphan was one before, or has just been abandoned. */
  lemma OrphanBefore(t: Tables, e: Event, game: nat, u: Tables)
    requires TablesOk(t) && u == Step(t, e) && Orphan(u, game)
    ensures if Of(t, game) != {} then Abandons(t, e, game) else Orphan(t, game) && !Closes(t, e, game)
  {
    if Of(t, game) != {} {
      OfferedStep(t, e, game);
    } else if game in t.hosts {
      StepOrphan(t, e, game);
    } else {
      UnknownStep(t, e, game);
    }
  }

  lemma {:induction false} OrphanWasAbandoned(ts: seq<Tables>, es: seq<Event>, n: nat, game: nat) returns (i: nat)
    requires Run(ts, es) && n <= |es| && Orphan(ts[n], game)
    ensures i < n && AbandonedAt(ts, es, i, n, game)
  {
    RunOk(ts, es, n - 1);
    assert Leads(ts, es, n - 1);
    OrphanBefore(ts[n - 1], es[n - 1], game, ts[n]);
    if Of(ts[n - 1], game) != {} {
      i := n - 1;
    } else {
      i := OrphanWasAbandoned(ts, es, n - 1, game);
    }
  }

  /** In a run from empty tables a host row is left without an entry exactly after such an event. */
  lemma OrphanRunExactly(ts: seq<Tables>, es: seq<Event>, n: nat, game: nat)
    requires Run(ts, es) && n <= |es|
    ensures Orphan(ts[n], game) <==> exists i: nat :: i < n && AbandonedAt(ts, es, i, n, game)
  {
    if Orphan(ts[n], game) {
      var i := OrphanWasAbandoned(ts, es, n, game);
    }
    if i: nat :| i < n && AbandonedAt(ts, es, i, n, game) {
      AbandonedStays(ts, es, i, n, game);
    }
  }

  /** A game that is created and fails, and then nothing but sweeps: its row stays. */
  lemma FailedGameStays(ts: seq<Tables>, es: seq<Event>, row: HostRow, name: seq<Byte>, n: nat)
    requires Run(ts, es) && 2 <= n <= |es| && es[0] == Create(row) && es[1] == Delete(0, name, true)
    requires forall j | 2 <= j < |es| :: es[j].Sweep?
    ensures Orphan(ts[n], 0) && ts[n].hosts[0] == row
  {
    assert Leads(ts, es, 0) && Leads(ts, es, 1);
    RunOk(ts, es, 1);
    assert 0 in Of(ts[1], 0);
    OrphanExactly(ts[1], 0, name, true);
    OrphanStays(ts, es, 2, n, 0);
  }

  /** One such run, written out. */
  lemma FailedGame(row: HostRow, name: seq<Byte>)
    ensures var created := Step(EMPTY, Create(row)); var failed := Step(created, Delete(0, name, true));
            && Run([EMPTY, created, failed], [Create(row), Delete(0, name, true)])
            && failed.hosts == map[0 := row] && failed.entries == map[]
  {
    var created := Step(EMPTY, Create(row));
    var ts, es := [EMPTY, created, Step(created, Delete(0, name, true))], [Create(row), Delete(0, name, true)];
    assert Leads(ts, es, 0) && Leads(ts, es, 1);
    assert Of(created, 0) == {0};
  }

  // ---------------------------------------------------------------------------------------
  // The pages
  // ---------------------------------------------------------------------------------------

  /** The rows of a result in the order in which they are fetched. */
  ghost predicate Fetched(rows: seq<nat>, keys: set<nat>) {
    && (forall i, j | 0 <= i < j < |rows| :: rows[i] != rows[j])
    && (forall e :: e in rows <==> e in keys)
  }

  /** The first n rows fetched. */
  ghost function Looked(rows: seq<nat>, clock: map<nat, int>, n: nat): map<nat, int>
    requires n <= |rows|
  {
    map e | e in clock && e in rows[..n] :: clock[e]
  }

  class Lobby {
    var tables: Tables

    constructor ()
      ensures tables == EMPTY && TablesOk(tables)
    {
      tables := EMPTY;
    }

    /** The loop of cleanOldGames.php over the rows that were in the table when it began. */
    method CleanOldGames(rows: seq<nat>, clock: map<nat, int>)
      requires Fetched(rows, tables.entries.Keys) && clock.Keys == tables.entries.Keys
      modifies this
      ensures tables == Swept(old(tables), clock)
    {
      var entries := tables.entries;
      var i := 0;
      while i < |rows|
        invariant i <= |rows| && entries == old(tables.entries)
        invariant tables == Swept(old(tables), Looked(rows, clock, i))
      {
        var e := rows[i];
        SweepOne(old(tables), rows, clock, i);
        if clock[e] - entries[e].time > LIFETIME || entries[e].time - clock[e] > LIFETIME {
          tables := tables.(entries := tables.entries - {e}, hosts := tables.hosts - {entries[e].game});
        }
        i := i + 1;
      }
      assert rows[..i] == rows && Looked(rows, clock, i) == clock;
    }

    /** addGameToTable. */
    method AddGame(row: HostRow) returns (game: nat)
      modifies this
      ensures tables == Added(old(tables), row) && game == old(tables.nextGame)
      ensures tables.hosts == old(tables.hosts)[game := row]
      ensures tables.entries.Keys == old(tables.entries.Keys) + {old(tables.nextEntry)}
      ensures forall e | e in old(tables.entries) && e != old(tables.nextEntry) ::
                tables.entries[e] == old(tables.entries)[e]
    {
      game := tables.nextGame;
      tables := tables.(hosts := tables.hosts[game := row], nextGame := game + 1);
      var e := tables.nextEntry;
      var record := Pack(Game(row.name, row.nick, row.ip, game, row.location, 1, if row.hasPassword then 1 else 0,
                              row.rank, row.time, row.time + 2 * 60 * 60));
      tables := tables.(entries := tables.entries[e := Entry(game, record, row.channel, row.time)], nextEntry := e + 1);
    }

    /** deleteGame. */
    method DeleteGame(game: int, name: seq<Byte>, failed: bool)
      modifies this
      ensures tables == Deleted(old(tables), game, name, failed)
    {
      if !failed {
        if game in tables.hosts && tables.hosts[game].name == name {
          tables := tables.(hosts := tables.hosts - {game});
        }
      }
      var found := set e | e in tables.entries && tables.entries[e].game == game;
      assert found == Of(old(tables), game);
      if |found| == 1 {
        tables := tables.(entries := tables.entries - found);
      }
    }

    /** GameList.php: the sweep, and then the rows of a channel with the newest game first. */
    method GameList(channel: string, rows: seq<nat>, clock: map<nat, int>) returns (shown: seq<Entry>)
      requires TablesOk(tables) && Fetched(rows, tables.entries.Keys) && clock.Keys == tables.entries.Keys
      modifies this
      ensures tables == Swept(old(tables), clock) && TablesOk(tables)
      ensures Descending(shown) && forall r: Entry :: r in shown <==> Offers(tables, channel, r)
    {
      SweptOk(tables, clock);
      CleanOldGames(rows, clock);
      shown := Query(channel);
    }

    /** SELECT ... WHERE Channel ORDER BY GameID DESC, and the loop that fetches its rows. */
    method Query(channel: string) returns (shown: seq<Entry>)
      requires TablesOk(tables)
      ensures Descending(shown) && forall r: Entry :: r in shown <==> Offers(tables, channel, r)
    {
      shown := [];
      var left := set e | e in tables.entries && tables.entries[e].channel == channel;
      while left != {}
        invariant Picking(tables, channel, left, shown)
        decreases |left|
      {
        HasLargest(tables, left);
        var e :| e in left && IsLargest(tables, left, e);
        PickingStep(tables, channel, left, shown, e);
        shown := shown + [tables.entries[e]];
        left := left - {e};
      }
    }
  }

  predicate IsLargest(t: Tables, left: set<nat>, e: nat) {
    e in t.entries && forall f | f in left :: f in t.entries && t.entries[f].game <= t.entries[e].game
  }

  lemma {:induction false} HasLargest(t: Tables, left: set<nat>)
    requires left != {} && left <= t.entries.Keys
    ensures exists e :: e in left && IsLargest(t, left, e)
    decreases |left|
  {
    var e :| e in left;
    var rest := left - {e};
    if rest == {} {
      assert left == {e} && IsLargest(t, left, e);
    } else {
      HasLargest(t, rest);
      var f :| f in rest && IsLargest(t, rest, f);
      assert left == rest + {e};
      assert IsLargest(t, left, if t.entries[f].game <= t.entries[e].game then e else f);
    }
  }

  /** The rows still to be fetched, all of them older games than those shown. */
  ghost predicate Picking(t: Tables, channel: string, left: set<nat>, shown: seq<Entry>) {
    && (forall e | e in left :: e in t.entries && t.entries[e].channel == channel)
    && (forall e | e in t.entries && t.entries[e].channel == channel :: e in left || t.entries[e] in shown)
    && (forall r | r in shown :: Offers(t, channel, r) && Newer(t, r, left))
    && Descending(shown)
  }

  ghost predicate Newer(t: Tables, r: Entry, left: set<nat>) {
    forall e | e in left && e in t.entries :: r.game > t.entries[e].game
  }

  lemma PickingStep(t: Tables, channel: string, left: set<nat>, shown: seq<Entry>, e: nat)
    requires TablesOk(t) && Picking(t, channel, left, shown) && e in left && IsLargest(t, left, e)
    ensures Picking(t, channel, left - {e}, shown + [t.entries[e]])
  {
    var r := t.entries[e];
    assert Offers(t, channel, r);
    assert Newer(t, r, left - {e});
    forall i | 0 <= i < |shown| ensures shown[i].game > r.game {
      assert shown[i] in shown && Newer(t, shown[i], left);
    }
    forall q | q in shown ensures Newer(t, q, left - {e}) {
      assert Newer(t, q, left);
    }
  }

  lemma PrunedOne(t: Tables, es: set<nat>, e: nat)
    requires e in t.entries
    ensures var u := Pruned(t, es);
            Pruned(t, es + {e}) == u.(entries := u.entries - {e}, hosts := u.hosts - {t.entries[e].game})
  {
    assert GamesOf(t, es + {e}) == GamesOf(t, es) + {t.entries[e].game};
  }

  lemma StaleOne(t: Tables, rows: seq<nat>, clock: map<nat, int>, i: nat)
    requires i < |rows| && Fetched(rows, t.entries.Keys) && clock.Keys == t.entries.Keys
    ensures rows[i] in t.entries
    ensures StaleEntries(t, Looked(rows, clock, i + 1)) == StaleEntries(t, Looked(rows, clock, i)) +
            if Stale(t.entries[rows[i]], clock[rows[i]]) then {rows[i]} else {}
  {
    assert rows[i] in rows;
    assert rows[..i + 1] == rows[..i] + [rows[i]];
  }

  lemma SweepOne(t: Tables, rows: seq<nat>, clock: map<nat, int>, i: nat)
    requires i < |rows| && Fetched(rows, t.entries.Keys) && clock.Keys == t.entries.Keys
    ensures rows[i] in t.entries
    ensures var u := Swept(t, Looked(rows, clock, i)); var e := rows[i];
            Swept(t, Looked(rows, clock, i + 1)) ==
            if !Stale(t.entries[e], clock[e]) then u
            else u.(entries := u.entries - {e}, hosts := u.hosts - {t.entries[e].game})
  {
    StaleOne(t, rows, clock, i);
    PrunedOne(t, StaleEntries(t, Looked(rows, clock, i)), rows[i]);
  }

  /** A game of the channel that is offered. */
  ghost predicate Offers(t: Tables, channel: string, r: Entry) {
    r.channel == channel && exists e :: e in t.entries && t.entries[e] == r
  }

  /** Newest game first. */
  ghost predicate Descending(rows: seq<Entry>) {
    forall i, j | 0 <= i < j < |rows| :: rows[i].game > rows[j].game
  }

  /**
   A listing shows exactly the games of its channel that were no more than 300 seconds away from the
   clock when the sweep looked at them, each with its host row in the tables.
   */
  lemma ListingIsFresh(t: Tables, clock: map<nat, int>, channel: string, r: Entry)
    requires TablesOk(t) && clock.Keys == t.entries.Keys
    ensures Offers(Swept(t, clock), channel, r) <==>
            r.channel == channel &&
            exists e :: e in t.entries && t.entries[e] == r && -LIFETIME <= clock[e] - r.time <= LIFETIME
    ensures Offers(Swept(t, clock), channel, r) ==> r.game in Swept(t, clock).hosts
  {
    SweptOk(t, clock);
    SweptEntries(t, clock);
    var u := Swept(t, clock);
    if Offers(u, channel, r) {
      var e :| e in u.entries && u.entries[e] == r;
      assert e in t.entries && t.entries[e] == r;
    }
    if e :| e in t.entries && t.entries[e] == r && -LIFETIME <= clock[e] - r.time <= LIFETIME {
      assert e in u.entries;
    }
  }

  lemma SweptEntries(t: Tables, clock: map<nat, int>)
    requires TablesOk(t) && clock.Keys == t.entries.Keys
    ensures forall e ::
              e in Swept(t, clock).entries <==> e in t.entries && -LIFETIME <= clock[e] - t.entries[e].time <= LIFETIME
    ensures forall e | e in Swept(t, clock).entries :: Swept(t, clock).entries[e] == t.entries[e]
  {
  }
}
