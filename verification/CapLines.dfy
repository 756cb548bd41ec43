/** The lines that list capabilities in answer to CAP LS, LIST, REQ and CLEAR. */
module CapLines {
  import opened Basics
  import opened Caps
  import opened IrcStrings
  import opened Packers

  /** Asked for by one of the masks, or not hidden when there is no mask. */
  predicate Shown(table: seq<Cap>, add: Option<set<nat>>, rem: Option<set<nat>>, k: nat)
    requires k < |table|
  {
    (rem.Some? && k in rem.value) || (add.Some? && k in add.value) || (rem.None? && add.None? && !table[k].hidden)
  }

  /** A name with its modifiers. */
  function ItemText(table: seq<Cap>, rem: Option<set<nat>>, k: nat): string
    requires k < |table|
  {
    (if rem.Some? && k in rem.value then "-"
     else (if table[k].proto then "~" else "") + (if table[k].sticky then "=" else "")) + table[k].name
  }

  ghost function CapPieces(table: seq<Cap>, add: Option<set<nat>>, rem: Option<set<nat>>, k: nat,
                           first: bool): seq<Piece>
    requires k <= |table|
    decreases |table| - k
  {
    if k == |table| then []
    else if !Shown(table, add, rem, k) then CapPieces(table, add, rem, k + 1, first)
    else [LedPiece(ItemText(table, rem, k), first)] + CapPieces(table, add, rem, k + 1, false)
  }

  function Command(me: string, nick: string, subcmd: string): string {
    ":" + me + " CAP " + (if nick == "" then "*" else nick) + " " + subcmd + " "
  }

  ghost function CapChunks(cmd: string, table: seq<Cap>, add: Option<set<nat>>,
                           rem: Option<set<nat>>): seq<seq<Piece>>
  {
    Chunks(|cmd| + 15, BUFSIZE, [], CapPieces(table, add, rem, 0, true))
  }

  /** Every capability fits a line of its own. */
  ghost predicate TableFits(cmd: string, table: seq<Cap>) {
    (forall k | 0 <= k < |table| :: table[k].name != "" && |cmd| + |table[k].name| + 18 <= BUFSIZE)
  }

  /** One capability into the buffer; a full line goes out first, with a star. */
  method PackCap(lines0: seq<string>, cmd: string, capbuf0: string, text: string, ghost first: bool,
                 ghost goal: seq<string>, ghost cur0: seq<Piece>, ghost ps: seq<Piece>)
    returns (lines: seq<string>, capbuf: string, ghost cur: seq<Piece>)
    requires capbuf0 == Text(cur0) && text != "" && |cmd| + |text| + 16 <= BUFSIZE && |cmd| + |capbuf0| + 15 <= BUFSIZE
    requires first == (capbuf0 == "")
    requires Packing(goal, Starred, lines0, cmd, Chunks(|cmd| + 15, BUFSIZE, cur0, [LedPiece(text, first)] + ps))
    ensures capbuf == Text(cur) && capbuf != "" && |cmd| + |capbuf| + 15 <= BUFSIZE
    ensures Packing(goal, Starred, lines, cmd, Chunks(|cmd| + 15, BUFSIZE, cur, ps))
  {
    ghost var p := LedPiece(text, first);
    PackingStep(goal, Starred, lines0, cmd, |cmd| + 15, BUFSIZE, cur0, p, ps);
    var pfx := if |capbuf0| > 0 then " " else "";
    var len := |text| + |pfx|;
    lines, capbuf, cur := lines0, capbuf0, cur0 + [p];
    if BUFSIZE < |cmd| + |capbuf| + len + 15 {
      lines := lines + [cmd + "* :" + capbuf];
      capbuf, cur := "", [p];
    }
    assert pfx + text == p.text;
    capbuf := capbuf + (pfx + text);
  }

  /** send_caplist. */
  method SendCapList(me: string, nick: string, subcmd: string, table: seq<Cap>, add: Option<set<nat>>,
                     rem: Option<set<nat>>)
    returns (lines: seq<string>)
    requires TableFits(Command(me, nick, subcmd), table) && |Command(me, nick, subcmd)| + 15 <= BUFSIZE
    ensures lines == Lines(Starred, Command(me, nick, subcmd), CapChunks(Command(me, nick, subcmd), table, add, rem))
  {
    lines := [];
    var cmd := Command(me, nick, subcmd);
    ghost var goal := Lines(Starred, cmd, CapChunks(cmd, table, add, rem));
    PackingStart(Starred, cmd, CapChunks(cmd, table, add, rem));
    var capbuf := "";
    ghost var cur: seq<Piece> := [];
    var i := 0;
    while i < |table|
      invariant i <= |table| && capbuf == Text(cur) && |cmd| + |capbuf| + 15 <= BUFSIZE
      invariant Packing(goal, Starred, lines, cmd,
                        Chunks(|cmd| + 15, BUFSIZE, cur, CapPieces(table, add, rem, i, capbuf == "")))
    {
      if Shown(table, add, rem, i) {
        ItemFits(table, rem, i);
        lines, capbuf, cur := PackCap(lines, cmd, capbuf, ItemText(table, rem, i), capbuf == "",
                                      goal, cur, CapPieces(table, add, rem, i + 1, false));
      }
      i := i + 1;
    }
    PackingEnd(goal, Starred, lines, cmd, |cmd| + 15, BUFSIZE, cur);
    lines := lines + [cmd + ":" + capbuf];
  }

  lemma ItemFits(table: seq<Cap>, rem: Option<set<nat>>, k: nat)
    requires k < |table| && table[k].name != ""
    ensures 0 < |ItemText(table, rem, k)| <= |table[k].name| + 2
  {
  }

  /** The capabilities shown, with their modifiers. */
  ghost function Items(table: seq<Cap>, add: Option<set<nat>>, rem: Option<set<nat>>, k: nat): seq<string>
    requires k <= |table|
    decreases |table| - k
  {
    if k == |table| then []
    else if !Shown(table, add, rem, k) then Items(table, add, rem, k + 1)
    else [ItemText(table, rem, k)] + Items(table, add, rem, k + 1)
  }

  lemma {:induction false} CapPieceFacts(cmd: string, table: seq<Cap>, add: Option<set<nat>>, rem: Option<set<nat>>,
                                         k: nat, first: bool)
    requires k <= |table| && TableFits(cmd, table)
    ensures Roomy(CapPieces(table, add, rem, k, first), BUFSIZE - |cmd| - 15)
    ensures var items := Items(table, add, rem, k);
            if first && items != [] then Text(CapPieces(table, add, rem, k, first)) + " " == Spaced(items)
            else if first then CapPieces(table, add, rem, k, first) == []
            else Text(CapPieces(table, add, rem, k, first)) + " " == " " + Spaced(items)
    decreases |table| - k
  {
    if k < |table| {
      if !Shown(table, add, rem, k) {
        CapPieceFacts(cmd, table, add, rem, k + 1, first);
      } else {
        CapPieceFacts(cmd, table, add, rem, k + 1, false);
        ItemFits(table, rem, k);
        LedCons(ItemText(table, rem, k), first, BUFSIZE - |cmd| - 15,
                CapPieces(table, add, rem, k + 1, false), Items(table, add, rem, k + 1));
      }
    }
  }

  lemma LedCons(item: string, first: bool, limit: int, ps: seq<Piece>, items: seq<string>)
    requires Roomy(ps, limit) && |item| + 1 <= limit && Text(ps) + " " == " " + Spaced(items)
    ensures Roomy([LedPiece(item, first)] + ps, limit)
    ensures Text([LedPiece(item, first)] + ps) + " " == (if first then "" else " ") + Spaced([item] + items)
  {
    var lead := if first then "" else " ";
    var p := LedPiece(item, first);
    assert ([p] + ps)[1..] == ps && ([item] + items)[1..] == items;
    Assoc(p.text, Text(ps), " ");
    assert p.text == lead + item;
    assert lead + item + (" " + Spaced(items)) == lead + (item + " " + Spaced(items));
  }

  /**
   The capabilities as the client reads them.  Without masks, those that are not hidden; with them, those
   to be removed after a minus sign, and those to be added.  A tilde says that a capability needs to be
   acknowledged, an equals sign that it stays.
   */
  ghost function Readable(table: seq<Cap>, add: Option<set<nat>>, rem: Option<set<nat>>, k: nat): seq<string>
    requires k <= |table|
    decreases |table| - k
  {
    if k == |table| then []
    else
      var t, rest := table[k], Readable(table, add, rem, k + 1);
      var text := (if t.proto then "~" else "") + (if t.sticky then "=" else "") + t.name;
      if add == None && rem == None then (if t.hidden then rest else [text] + rest)
      else if rem.Some? && k in rem.value then ["-" + t.name] + rest
      else if add.Some? && k in add.value then [text] + rest
      else rest
  }

  lemma {:induction false} ItemsAreReadable(table: seq<Cap>, add: Option<set<nat>>, rem: Option<set<nat>>, k: nat)
    requires k <= |table|
    ensures Items(table, add, rem, k) == Readable(table, add, rem, k)
    decreases |table| - k
  {
    if k < |table| {
      ItemsAreReadable(table, add, rem, k + 1);
    }
  }

  lemma {:induction false} CapPiecesAreLed(table: seq<Cap>, add: Option<set<nat>>, rem: Option<set<nat>>, k: nat,
                                           first: bool)
    requires k <= |table|
    ensures CapPieces(table, add, rem, k, first) == Led(Items(table, add, rem, k), first)
    decreases |table| - k
  {
    if k < |table| {
      if Shown(table, add, rem, k) {
        CapPiecesAreLed(table, add, rem, k + 1, false);
      } else {
        CapPiecesAreLed(table, add, rem, k + 1, first);
      }
    }
  }

  /** Line i fits the limit, and says the command, its separator and the items of its chunk. */
  ghost predicate LineFits(cmd: string, css: seq<seq<Piece>>, i: nat)
    requires i < |css|
  {
    var lines := Lines(Starred, cmd, css);
    && i < |lines| && |lines[i]| + 2 <= BUFSIZE
    && lines[i] == cmd + (if i == |lines| - 1 then ":" else "* :") + Text(css[i])
  }

  /**
   Every line of a capability list fits the limit; the lists on the lines, one after the other, are
   the capabilities to be shown, with a blank before each but the first; all lines but the last
   carry a star.
   */
  lemma CapListing(me: string, nick: string, subcmd: string, table: seq<Cap>, add: Option<set<nat>>,
                   rem: Option<set<nat>>)
    requires TableFits(Command(me, nick, subcmd), table) && |Command(me, nick, subcmd)| + 15 <= BUFSIZE
    ensures var cmd := Command(me, nick, subcmd); var css := CapChunks(cmd, table, add, rem);
            var lines := Lines(Starred, cmd, css); var items := Readable(table, add, rem, 0);
            && cmd == ":" + me + " CAP " + (if nick == "" then "*" else nick) + " " + subcmd + " "
            && |lines| == |css| > 0 && AllFull(|cmd| + 15, BUFSIZE, css) && Flat(css) == Led(items, true)
            && (forall i | 0 <= i < |css| :: LineFits(cmd, css, i))
            && Text(Flat(css)) + (if items == [] then "" else " ") == Spaced(items)
  {
    var cmd := Command(me, nick, subcmd);
    var css, ps := CapChunks(cmd, table, add, rem), CapPieces(table, add, rem, 0, true);
    ItemsAreReadable(table, add, rem, 0);
    CapPiecesAreLed(table, add, rem, 0, true);
    ChunksAllFull(|cmd| + 15, BUFSIZE, [], ps);
    CapPieceFacts(cmd, table, add, rem, 0, true);
    ChunksLossless(|cmd| + 15, BUFSIZE, [], ps);
    ChunksStart(|cmd| + 15, BUFSIZE, [], ps);
    LinesAt(Starred, cmd, css, 0);
    forall i | 0 <= i < |css| ensures LineFits(cmd, css, i) {
      CapLineFits(cmd, css, ps, i);
    }
  }

  lemma CapLineFits(cmd: string, css: seq<seq<Piece>>, ps: seq<Piece>, i: nat)
    requires css == Chunks(|cmd| + 15, BUFSIZE, [], ps) && i < |css| && Roomy(ps, BUFSIZE - |cmd| - 15)
    requires |cmd| + 15 <= BUFSIZE
    ensures LineFits(cmd, css, i)
  {
    ChunksFit(|cmd| + 15, BUFSIZE, [], ps, i);
    LinesAt(Starred, cmd, css, i);
  }
}
