/**
 The MAP command: a recursive walk over the server tree that draws into one shared prompt buffer of
 64 characters and puts back, after each subtree, what the next sibling needs.

 The tree is only read, so it is a value; the buffer and the lines sent are state.  How a share of
 all users is written as a percentage is a parameter.
 */
module MapPrinter {
  import opened Basics

  const PROMPT := 64
  const DEEPEST := 60

  datatype Tree = Server(name: string, id: string, hidden: bool, service: bool, users: nat, children: seq<Tree>)

  /** Who asks, whether services are hidden from users, and how a number of users reads as a percentage. */
  datatype View = View(oper: bool, hideServices: bool, percent: nat -> string)

  /** RPL_MAP, and RPL_MAPMORE for a server too deep to go on from. */
  datatype Line = Map(prompt: string, body: string) | More(prompt: string, name: string)

  predicate Shows(v: View, t: Tree) {
    v.oper || !(t.hidden || (t.service && v.hideServices))
  }

  ghost function Count(v: View, ts: seq<Tree>): nat {
    if ts == [] then 0 else (if Shows(v, ts[0]) then 1 else 0) + Count(v, ts[1..])
  }

  function Label(v: View, t: Tree): string {
    t.name + if v.oper && t.id != "" then "[" + t.id + "]" else ""
  }

  ghost function Dashes(n: int): string {
    if n <= 0 then "" else Dashes(n - 1) + "-"
  }

  /** Name, a space, dashes up to a fixed column, and a bar. */
  ghost function Bar(v: View, t: Tree, depth: nat): string {
    Label(v, t) + " " + Dashes(49 - |Label(v, t)| - depth) + " |"
  }

  function Decimal(n: nat): string {
    (if n < 10 then "" else Decimal(n / 10)) + ['0' + (n % 10) as char]
  }

  /** A number right-aligned in five places. */
  function Padded(n: nat): string {
    var d := Decimal(n);
    if |d| < 5 then seq(5 - |d|, _ => ' ') + d else d
  }

  ghost function Body(v: View, t: Tree, depth: nat): string {
    Bar(v, t, depth) + (" Users: " + Padded(t.users) + " (" + v.percent(t.users) + "%)")
  }

  ghost function LineOf(v: View, t: Tree, prompt: string): Line {
    if |prompt| > DEEPEST then More(prompt, t.name) else Map(prompt, Body(v, t, |prompt|))
  }

  // ---------------------------------------------------------------------------------------
  // The drawing as it should be
  // ---------------------------------------------------------------------------------------

  datatype Edge = Root | Middle | Last

  function Glyph(e: Edge): string {
    match e
    case Root => ""
    case Middle => "|-"
    case Last => "`-"
  }

  /** What the lines below inherit. */
  function Stem(e: Edge): string {
    match e
    case Root => ""
    case Middle => "| "
    case Last => "  "
  }

  ghost function Drawing(v: View, t: Tree, outer: string, e: Edge): seq<Line>
    decreases t
  {
    [LineOf(v, t, outer + Glyph(e))] +
    if |outer + Glyph(e)| > DEEPEST then [] else Drawings(v, t.children, outer + Stem(e))
  }

  ghost function Drawings(v: View, ts: seq<Tree>, outer: string): seq<Line>
    decreases ts
  {
    if ts == [] then []
    else
      (if Shows(v, ts[0]) then Drawing(v, ts[0], outer, if Count(v, ts[1..]) == 0 then Last else Middle) else [])
      + Drawings(v, ts[1..], outer)
  }

  /** The tree that the viewer may see: operators all of it, others nothing below what is hidden from them. */
  ghost function Visible(v: View, t: Tree): Tree
    decreases t
  {
    t.(children := VisibleAll(v, t.children))
  }

  ghost function VisibleAll(v: View, ts: seq<Tree>): seq<Tree>
    decreases ts
  {
    if ts == [] then []
    else if v.oper || !(ts[0].hidden || (ts[0].service && v.hideServices)) then
      [Visible(v, ts[0])] + VisibleAll(v, ts[1..])
    else VisibleAll(v, ts[1..])
  }

  /** A tree drawn whole: a line for every server, branches to its children, stems past the lines between them. */
  ghost function Sketch(v: View, t: Tree, outer: string, e: Edge): seq<Line>
    decreases t
  {
    [LineOf(v, t, outer + Glyph(e))] +
    if |outer + Glyph(e)| > DEEPEST then [] else Sketches(v, t.children, outer + Stem(e))
  }

  ghost function Sketches(v: View, ts: seq<Tree>, outer: string): seq<Line>
    decreases ts
  {
    if ts == [] then []
    else Sketch(v, ts[0], outer, if |ts| == 1 then Last else Middle) + Sketches(v, ts[1..], outer)
  }

  lemma {:induction false} CountVisible(v: View, ts: seq<Tree>)
    ensures Count(v, ts) == |VisibleAll(v, ts)|
  {
    if ts != [] {
      CountVisible(v, ts[1..]);
    }
  }

  lemma VisibleLine(v: View, t: Tree, prompt: string)
    ensures LineOf(v, Visible(v, t), prompt) == LineOf(v, t, prompt)
  {
    assert Label(v, Visible(v, t)) == Label(v, t);
  }

  /** What is drawn of a tree is what is visible of it. */
  lemma {:induction false} DrawingIsSketch(v: View, t: Tree, outer: string, e: Edge)
    ensures Drawing(v, t, outer, e) == Sketch(v, Visible(v, t), outer, e)
    decreases t
  {
    VisibleLine(v, t, outer + Glyph(e));
    DrawingsAreSketches(v, t.children, outer + Stem(e));
  }

  lemma {:induction false} DrawingsAreSketches(v: View, ts: seq<Tree>, outer: string)
    ensures Drawings(v, ts, outer) == Sketches(v, VisibleAll(v, ts), outer)
    decreases ts
  {
    if ts != [] {
      DrawingsAreSketches(v, ts[1..], outer);
      if Shows(v, ts[0]) {
        CountVisible(v, ts[1..]);
        DrawingIsSketch(v, ts[0], outer, if Count(v, ts[1..]) == 0 then Last else Middle);
        SketchesCons(v, Visible(v, ts[0]), VisibleAll(v, ts[1..]), outer);
      } else {
        assert Drawings(v, ts, outer) == [] + Drawings(v, ts[1..], outer);
      }
    }
  }

  lemma SketchesCons(v: View, t: Tree, ts: seq<Tree>, outer: string)
    ensures Sketches(v, [t] + ts, outer) ==
            Sketch(v, t, outer, if ts == [] then Last else Middle) + Sketches(v, ts, outer)
  {
    assert ([t] + ts)[1..] == ts;
  }

  // ---------------------------------------------------------------------------------------
  // What the shared buffer makes of it
  // ---------------------------------------------------------------------------------------

  function Unhook(c: char): char {
    if c == '`' then ' ' else c
  }

  /** The buffer up to a server's own line, while its children are drawn. */
  ghost function Below(prefix: string): string {
    if |prefix| < 2 then prefix
    else prefix[..|prefix| - 2] + [Unhook(prefix[|prefix| - 2]), ' ']
  }

  /** The same part of the buffer after the server's whole subtree. */
  ghost function After(prefix: string): string {
    if |prefix| < 2 then prefix
    else prefix[..|prefix| - 2] + [Unhook(prefix[|prefix| - 2]), if |prefix| > DEEPEST then ' ' else '-']
  }

  ghost function Printed(v: View, t: Tree, prefix: string): seq<Line>
    decreases t
  {
    [LineOf(v, t, prefix)] + if |prefix| > DEEPEST then [] else PrintedAll(v, t.children, Below(prefix), '|', '-')
  }

  /** The children, with the two characters that the buffer holds at their place. */
  ghost function PrintedAll(v: View, ts: seq<Tree>, outer: string, c: char, d: char): seq<Line>
    decreases ts
  {
    if ts == [] then []
    else if !Shows(v, ts[0]) then PrintedAll(v, ts[1..], outer, c, d)
    else
      var hook := if Count(v, ts[1..]) == 0 then '`' else c;
      Printed(v, ts[0], outer + [hook, d])
      + PrintedAll(v, ts[1..], outer, Unhook(hook), if |outer| + 2 > DEEPEST then ' ' else '-')
  }

  // ---------------------------------------------------------------------------------------
  // dump_map
  // ---------------------------------------------------------------------------------------

  lemma BelowFacts(prefix: string)
    requires EOS !in prefix
    ensures |Below(prefix)| == |prefix| && EOS !in Below(prefix)
    ensures |After(prefix)| == |prefix| && EOS !in After(prefix)
  {
  }

  class MapCommand {
    const v: View
    const prompt: array<char>
    var lines: seq<Line>

    constructor (v: View)
      ensures this.v == v && lines == [] && prompt.Length == PROMPT && fresh(prompt)
    {
      this.v := v;
      prompt := new char[PROMPT];
      lines := [];
    }

    /** The part of a line after the prompt. */
    method Text(t: Tree, depth: nat) returns (buf: string)
      ensures buf == Body(v, t, depth)
    {
      buf := Label(v, t) + " ";
      var dashes := 50 - |buf| - depth;
      ghost var n := dashes;
      while dashes > 0
        invariant dashes <= n && (dashes < 0 ==> dashes == n)
        invariant buf == Label(v, t) + " " + Dashes(n - if dashes < 0 then 0 else dashes)
        decreases dashes
      {
        buf := buf + "-";
        dashes := dashes - 1;
      }
      buf := buf + " |";
      buf := buf + (" Users: " + Padded(t.users) + " (" + v.percent(t.users) + "%)");
    }

    /** The first pass over the children. */
    method CountChildren(ts: seq<Tree>) returns (cnt: nat)
      ensures cnt == Count(v, ts) == |VisibleAll(v, ts)|
    {
      CountVisible(v, ts);
      cnt := 0;
      var i := 0;
      while i < |ts|
        invariant i <= |ts| && cnt + Count(v, ts[i..]) == Count(v, ts)
      {
        if Shows(v, ts[i]) {
          cnt := cnt + 1;
        }
        i := i + 1;
      }
    }

    /** A server's own line, and the two characters before it made ready for the children. */
    method PrintLine(t: Tree, pl: nat)
      requires prompt.Length == PROMPT && pl <= 62 && pl % 2 == 0 && EOS !in prompt[..pl]
      modifies this`lines, prompt
      ensures lines == old(lines) + [LineOf(v, t, old(prompt[..pl]))]
      ensures prompt[..pl] == Below(old(prompt[..pl]))
    {
      prompt[pl] := EOS;
      CTextIs(prompt[..], pl);
      if pl > DEEPEST {
        lines := lines + [More(CText(prompt[..]), t.name)];
      } else {
        var buf := Text(t, pl);
        lines := lines + [Map(CText(prompt[..]), buf)];
      }
      if pl > 0 {
        prompt[pl - 1] := ' ';
        if prompt[pl - 2] == '`' {
          prompt[pl - 2] := ' ';
        }
      }
    }

    method Hook(pl: nat)
      requires prompt.Length == PROMPT && pl <= DEEPEST && EOS !in prompt[..pl]
      modifies prompt
      ensures prompt[..pl] == old(prompt[..pl]) && prompt[pl] == '|' && prompt[pl + 1] == '-'
      ensures EOS !in prompt[..pl + 2]
    {
      prompt[pl], prompt[pl + 1], prompt[pl + 2] := '|', '-', EOS;
      assert prompt[..pl + 2] == prompt[..pl] + ['|', '-'];
    }

    /** dump_map: every write stays inside the buffer, whatever the depth of the tree. */
    method DumpMap(t: Tree, pl: nat)
      requires prompt.Length == PROMPT && pl <= 62 && pl % 2 == 0 && EOS !in prompt[..pl]
      modifies this`lines, prompt
      ensures lines == old(lines) + Printed(v, t, old(prompt[..pl]))
      ensures pl == 0 && Slim(Visible(v, t), 0) ==> lines == old(lines) + Sketch(v, Visible(v, t), "", Root)
      ensures prompt[..pl] == After(old(prompt[..pl]))
      decreases t, 0
    {
      ghost var prefix, was := prompt[..pl], lines;
      MapIsRight(v, t);
      BelowFacts(prefix);
      PrintLine(t, pl);
      if pl > DEEPEST {
        return;
      }
      DumpBelow(t, prefix, pl);
      Assoc(was, [LineOf(v, t, prefix)], PrintedAll(v, t.children, Below(prefix), '|', '-'));
    }

    /** What follows the line of a server that is not too deep. */
    method DumpBelow(t: Tree, ghost prefix: string, pl: nat)
      requires prompt.Length == PROMPT && |prefix| == pl <= DEEPEST && pl % 2 == 0
      requires EOS !in prefix && prompt[..pl] == Below(prefix)
      modifies this`lines, prompt
      ensures lines == old(lines) + PrintedAll(v, t.children, Below(prefix), '|', '-')
      ensures prompt[..pl] == After(prefix)
      decreases t.children, 1
    {
      BelowFacts(prefix);
      Hook(pl);
      DumpChildren(t.children, pl);
      AfterChildren(prefix);
      if pl > 0 {
        prompt[pl - 1] := '-';
        assert prompt[..pl] == Below(prefix)[pl - 1 := '-'];
      }
    }

    /** The two passes over the children. */
    method DumpChildren(ts: seq<Tree>, pl: nat)
      requires prompt.Length == PROMPT && pl <= DEEPEST && pl % 2 == 0 && EOS !in prompt[..pl + 2]
      modifies this`lines, prompt
      ensures lines == old(lines) + PrintedAll(v, ts, old(prompt[..pl]), old(prompt[pl]), old(prompt[pl + 1]))
      ensures prompt[..pl] == old(prompt[..pl])
      decreases ts, 0
    {
      var cnt := CountChildren(ts);
      ghost var outer, c, d, before := prompt[..pl], prompt[pl], prompt[pl + 1], lines;
      var i := 0;
      assert ts[0..] == ts;
      while i < |ts|
        invariant i <= |ts| && cnt == Count(v, ts[i..]) && prompt[..pl] == outer && EOS !in prompt[..pl + 2]
        invariant before + PrintedAll(v, ts, outer, c, d) ==
                  lines + PrintedAll(v, ts[i..], outer, prompt[pl], prompt[pl + 1])
      {
        assert ts[i..][0] == ts[i] && ts[i..][1..] == ts[i + 1..];
        if Shows(v, ts[i]) {
          cnt := cnt - 1;
          ghost var was, c', d' := lines, prompt[pl], prompt[pl + 1];
          DumpChild(ts[i], cnt == 0, pl);
          Assoc(was, Printed(v, ts[i], outer + [if cnt == 0 then '`' else c', d']),
                       PrintedAll(v, ts[i + 1..], outer, prompt[pl], prompt[pl + 1]));
        }
        i := i + 1;
      }
    }

    /** One child: the hook is changed for the last one. */
    method DumpChild(t: Tree, last: bool, pl: nat)
      requires prompt.Length == PROMPT && pl <= DEEPEST && pl % 2 == 0 && EOS !in prompt[..pl + 2]
      modifies this`lines, prompt
      ensures var hook := if last then '`' else old(prompt[pl]);
              && lines == old(lines) + Printed(v, t, old(prompt[..pl]) + [hook, old(prompt[pl + 1])])
              && prompt[pl] == Unhook(hook)
      ensures prompt[pl + 1] == if pl + 2 > DEEPEST then ' ' else '-'
      ensures prompt[..pl] == old(prompt[..pl]) && EOS !in prompt[..pl + 2]
      decreases t, 1
    {
      ghost var outer, hook, d := prompt[..pl], if last then '`' else prompt[pl], prompt[pl + 1];
      if last {
        prompt[pl] := '`';
      }
      assert prompt[..pl + 2] == outer + [hook, d];
      BelowFacts(outer + [hook, d]);
      DumpMap(t, pl + 2);
      AfterHook(outer, hook, d, prompt[..], pl);
    }
  }

  /** The buffer at a child's place after the child. */
  lemma AfterHook(outer: string, hook: char, d: char, buf: string, pl: nat)
    requires |outer| == pl && pl + 2 <= |buf| && buf[..pl + 2] == After(outer + [hook, d])
    ensures buf[..pl] == outer && buf[pl] == Unhook(hook) && buf[pl + 1] == if pl + 2 > DEEPEST then ' ' else '-'
  {
    assert (outer + [hook, d])[..pl] == outer;
    assert buf[..pl] == buf[..pl + 2][..pl];
  }

  lemma AfterChildren(prefix: string)
    requires |prefix| <= DEEPEST && |prefix| % 2 == 0
    ensures |Below(prefix)| == |prefix|
    ensures After(prefix) == if prefix == "" then "" else Below(prefix)[|prefix| - 1 := '-']
  {
  }

  // ---------------------------------------------------------------------------------------
  // Where the buffer gives the right drawing
  // ---------------------------------------------------------------------------------------

  /** No server at depth 30, reached over servers that are shown, has two children that are shown. */
  ghost predicate Narrow(v: View, t: Tree, depth: nat)
    decreases t
  {
    if 2 * depth < DEEPEST then AllNarrow(v, t.children, depth + 1)
    else 2 * depth == DEEPEST ==> Count(v, t.children) <= 1
  }

  ghost predicate AllNarrow(v: View, ts: seq<Tree>, depth: nat)
    decreases ts
  {
    ts == [] || ((Shows(v, ts[0]) ==> Narrow(v, ts[0], depth)) && AllNarrow(v, ts[1..], depth))
  }

  /** How many lines a subtree takes. */
  ghost function Size(v: View, t: Tree, depth: nat): nat
    decreases t
  {
    1 + if 2 * depth > DEEPEST then 0 else Sizes(v, t.children, depth + 1)
  }

  ghost function Sizes(v: View, ts: seq<Tree>, depth: nat): nat
    decreases ts
  {
    if ts == [] then 0 else (if Shows(v, ts[0]) then Size(v, ts[0], depth) else 0) + Sizes(v, ts[1..], depth)
  }

  lemma {:induction false} PrintedSize(v: View, t: Tree, prefix: string, depth: nat)
    requires |prefix| == 2 * depth
    ensures |Printed(v, t, prefix)| == Size(v, t, depth)
    decreases t
  {
    if 2 * depth <= DEEPEST {
      PrintedSizes(v, t.children, Below(prefix), '|', '-', depth + 1);
    }
  }

  lemma {:induction false} PrintedSizes(v: View, ts: seq<Tree>, outer: string, c: char, d: char, depth: nat)
    requires |outer| + 2 == 2 * depth
    ensures |PrintedAll(v, ts, outer, c, d)| == Sizes(v, ts, depth)
    decreases ts
  {
    if ts != [] {
      if Shows(v, ts[0]) {
        var hook := if Count(v, ts[1..]) == 0 then '`' else c;
        PrintedSize(v, ts[0], outer + [hook, d], depth);
        PrintedSizes(v, ts[1..], outer, Unhook(hook), if |outer| + 2 > DEEPEST then ' ' else '-', depth);
      } else {
        PrintedSizes(v, ts[1..], outer, c, d, depth);
      }
    }
  }

  lemma {:induction false} DrawingSize(v: View, t: Tree, outer: string, e: Edge, depth: nat)
    requires |outer + Glyph(e)| == 2 * depth
    ensures |Drawing(v, t, outer, e)| == Size(v, t, depth)
    decreases t
  {
    if 2 * depth <= DEEPEST {
      DrawingSizes(v, t.children, outer + Stem(e), depth + 1);
    }
  }

  lemma {:induction false} DrawingSizes(v: View, ts: seq<Tree>, outer: string, depth: nat)
    requires |outer| + 2 == 2 * depth
    ensures |Drawings(v, ts, outer)| == Sizes(v, ts, depth)
    decreases ts
  {
    if ts != [] {
      if Shows(v, ts[0]) {
        DrawingSize(v, ts[0], outer, if Count(v, ts[1..]) == 0 then Last else Middle, depth);
      }
      DrawingSizes(v, ts[1..], outer, depth);
    }
  }

  lemma SplitEqual(a: seq<Line>, b: seq<Line>, c: seq<Line>, d: seq<Line>)
    requires |a| == |c|
    ensures a + b == c + d <==> a == c && b == d
  {
    if a + b == c + d {
      assert a == (a + b)[..|a|] == c;
      assert b == (a + b)[|a|..] == d;
    }
  }

  lemma {:induction false} PrintedNone(v: View, ts: seq<Tree>, outer: string, c: char, d: char)
    requires Count(v, ts) == 0
    ensures PrintedAll(v, ts, outer, c, d) == Drawings(v, ts, outer) == []
    ensures forall depth :: AllNarrow(v, ts, depth)
  {
    if ts != [] {
      PrintedNone(v, ts[1..], outer, c, d);
    }
  }

  lemma BelowGlyph(outer: string, e: Edge)
    requires e.Root? ==> outer == ""
    ensures Below(outer + Glyph(e)) == outer + Stem(e)
  {
  }

  /**
   What a child leaves behind for its next sibling: its own hook, as long as it is not too deep; the
   hook of a last child is undone.
   */
  lemma SiblingReady(outer: string, e: Edge)
    requires e.Middle? || e.Last?
    ensures After(outer + Glyph(e)) == outer + Glyph(Middle) <==> e.Middle? && |outer| + 2 <= DEEPEST
    ensures e.Last? ==> After(outer + Glyph(e))[|outer|] == ' '
  {
    var p := After(outer + Glyph(e));
    assert p[..|outer|] == outer && p == outer + p[|outer|..];
    assert (outer + Glyph(Middle))[|outer|] == '|' && (outer + Glyph(Middle))[|outer| + 1] == '-';
  }

  /**
   The shared buffer gives the intended drawing exactly when the tree is narrow at depth 30; the
   early return for a deeper server leaves its parent's hook unrepaired, which the next child shows.
   */
  lemma {:induction false} PrintedIsDrawing(v: View, t: Tree, outer: string, e: Edge, depth: nat)
    requires |outer + Glyph(e)| == 2 * depth && 2 * depth <= 62 && (e.Root? ==> outer == "")
    ensures Printed(v, t, outer + Glyph(e)) == Drawing(v, t, outer, e) <==> Narrow(v, t, depth)
    decreases t
  {
    var prefix := outer + Glyph(e);
    if 2 * depth <= DEEPEST {
      BelowGlyph(outer, e);
      SplitEqual([LineOf(v, t, prefix)], PrintedAll(v, t.children, Below(prefix), '|', '-'),
                 [LineOf(v, t, prefix)], Drawings(v, t.children, outer + Stem(e)));
      BelowIsDrawing(v, t, outer + Stem(e), depth);
    }
  }

  lemma {:induction false} BelowIsDrawing(v: View, t: Tree, outer: string, depth: nat)
    requires |outer| == 2 * depth <= DEEPEST
    ensures PrintedAll(v, t.children, outer, '|', '-') == Drawings(v, t.children, outer) <==> Narrow(v, t, depth)
    decreases t.children, 1
  {
    if 2 * depth < DEEPEST {
      ChildrenAreDrawings(v, t.children, outer, depth + 1);
    } else {
      DeepChildren(v, t.children, outer);
    }
  }

  lemma {:induction false} ChildrenAreDrawings(v: View, ts: seq<Tree>, outer: string, depth: nat)
    requires |outer| + 2 == 2 * depth <= DEEPEST
    ensures PrintedAll(v, ts, outer, '|', '-') == Drawings(v, ts, outer) <==> AllNarrow(v, ts, depth)
    decreases ts, 0
  {
    if ts != [] {
      if !Shows(v, ts[0]) {
        ChildrenAreDrawings(v, ts[1..], outer, depth);
      } else {
        var last := Count(v, ts[1..]) == 0;
        var e := if last then Last else Middle;
        var hook := if last then '`' else '|';
        assert Glyph(e) == [hook, '-'];
        PrintedIsDrawing(v, ts[0], outer, e, depth);
        PrintedSize(v, ts[0], outer + [hook, '-'], depth);
        DrawingSize(v, ts[0], outer, e, depth);
        SplitEqual(Printed(v, ts[0], outer + [hook, '-']), PrintedAll(v, ts[1..], outer, Unhook(hook), '-'),
                   Drawing(v, ts[0], outer, e), Drawings(v, ts[1..], outer));
        if last {
          PrintedNone(v, ts[1..], outer, ' ', '-');
        } else {
          ChildrenAreDrawings(v, ts[1..], outer, depth);
        }
      }
    }
  }

  /** Children at depth 31: the first is right, any further one is not. */
  lemma {:induction false} DeepChildren(v: View, ts: seq<Tree>, outer: string)
    requires |outer| == DEEPEST
    ensures PrintedAll(v, ts, outer, '|', '-') == Drawings(v, ts, outer) <==> Count(v, ts) <= 1
    decreases ts
  {
    if ts != [] {
      if !Shows(v, ts[0]) {
        DeepChildren(v, ts[1..], outer);
      } else {
        var last := Count(v, ts[1..]) == 0;
        var e := if last then Last else Middle;
        var hook := if last then '`' else '|';
        assert Glyph(e) == [hook, '-'];
        SplitEqual(Printed(v, ts[0], outer + [hook, '-']), PrintedAll(v, ts[1..], outer, Unhook(hook), ' '),
                   Drawing(v, ts[0], outer, e), Drawings(v, ts[1..], outer));
        if last {
          PrintedNone(v, ts[1..], outer, ' ', ' ');
        } else {
          LaterDiffers(v, ts[1..], outer);
        }
      }
    }
  }

  lemma {:induction false} LaterDiffers(v: View, ts: seq<Tree>, outer: string)
    requires |outer| == DEEPEST && Count(v, ts) > 0
    ensures PrintedAll(v, ts, outer, '|', ' ') != Drawings(v, ts, outer)
    decreases ts
  {
    if !Shows(v, ts[0]) {
      LaterDiffers(v, ts[1..], outer);
    } else {
      var last := Count(v, ts[1..]) == 0;
      var e := if last then Last else Middle;
      var hook := if last then '`' else '|';
      var a, b := outer + [hook, ' '], outer + Glyph(e);
      assert a[DEEPEST + 1] != b[DEEPEST + 1];
      assert PrintedAll(v, ts, outer, '|', ' ')[0] == Printed(v, ts[0], a)[0] == LineOf(v, ts[0], a);
      assert Drawings(v, ts, outer)[0] == Drawing(v, ts[0], outer, e)[0] == LineOf(v, ts[0], b);
    }
  }

  /** No server at depth 30 has two children. */
  ghost predicate Slim(t: Tree, depth: nat)
    decreases t
  {
    if 2 * depth < DEEPEST then AllSlim(t.children, depth + 1) else 2 * depth == DEEPEST ==> |t.children| <= 1
  }

  ghost predicate AllSlim(ts: seq<Tree>, depth: nat)
    decreases ts
  {
    ts == [] || (Slim(ts[0], depth) && AllSlim(ts[1..], depth))
  }

  lemma {:induction false} NarrowIsSlim(v: View, t: Tree, depth: nat)
    ensures Narrow(v, t, depth) <==> Slim(Visible(v, t), depth)
    decreases t
  {
    CountVisible(v, t.children);
    AllNarrowIsSlim(v, t.children, depth + 1);
  }

  lemma {:induction false} AllNarrowIsSlim(v: View, ts: seq<Tree>, depth: nat)
    ensures AllNarrow(v, ts, depth) <==> AllSlim(VisibleAll(v, ts), depth)
    decreases ts
  {
    if ts != [] {
      AllNarrowIsSlim(v, ts[1..], depth);
      if Shows(v, ts[0]) {
        NarrowIsSlim(v, ts[0], depth);
        assert VisibleAll(v, ts)[1..] == VisibleAll(v, ts[1..]);
      }
    }
  }

  /** How far a tree reaches down. */
  ghost function Height(t: Tree): nat
    decreases t
  {
    Heights(t.children)
  }

  ghost function Heights(ts: seq<Tree>): nat
    decreases ts
  {
    if ts == [] then 0
    else
      var h, r := 1 + Height(ts[0]), Heights(ts[1..]);
      if h > r then h else r
  }

  lemma {:induction false} LowIsSlim(t: Tree, depth: nat)
    requires 2 * (depth + Height(t)) <= DEEPEST
    ensures Slim(t, depth)
    decreases t
  {
    assert Height(t) == 0 ==> t.children == [];
    if 2 * depth < DEEPEST {
      AllLowAreSlim(t.children, depth + 1);
    }
  }

  lemma {:induction false} AllLowAreSlim(ts: seq<Tree>, depth: nat)
    requires depth > 0 && 2 * (depth - 1 + Heights(ts)) <= DEEPEST
    ensures AllSlim(ts, depth)
    decreases ts
  {
    if ts != [] {
      LowIsSlim(ts[0], depth);
      AllLowAreSlim(ts[1..], depth);
    }
  }

  /** A subtree, wherever it stands, comes out as what the viewer may see of it, exactly when that is slim. */
  lemma SubtreeIsRight(v: View, t: Tree, outer: string, e: Edge, depth: nat)
    requires |outer + Glyph(e)| == 2 * depth && 2 * depth <= 62 && (e.Root? ==> outer == "")
    ensures Printed(v, t, outer + Glyph(e)) == Sketch(v, Visible(v, t), outer, e) <==> Slim(Visible(v, t), depth)
  {
    PrintedIsDrawing(v, t, outer, e, depth);
    DrawingIsSketch(v, t, outer, e);
    NarrowIsSlim(v, t, depth);
  }

  /**
   The map is the drawing of what the viewer may see, exactly when no server at depth 30 of that has two
   children; a tree that goes no deeper than 30 always comes out right.
   */
  lemma MapIsRight(v: View, t: Tree)
    ensures Printed(v, t, "") == Sketch(v, Visible(v, t), "", Root) <==> Slim(Visible(v, t), 0)
    ensures Height(Visible(v, t)) <= 30 ==> Printed(v, t, "") == Sketch(v, Visible(v, t), "", Root)
  {
    var e := Root;
    assert "" + Glyph(e) == "";
    SubtreeIsRight(v, t, "", e, 0);
    if Height(Visible(v, t)) <= 30 {
      LowIsSlim(Visible(v, t), 0);
    }
  }

  /** Below the root nothing is hidden, and no service where services are. */
  ghost predicate NothingHidden(v: View, t: Tree)
    decreases t
  {
    forall i | 0 <= i < |t.children| ::
      var c := t.children[i]; !c.hidden && !(c.service && v.hideServices) && NothingHidden(v, c)
  }

  /** A user sees nothing that is hidden, and all of a tree that hides nothing; an operator sees all of any tree. */
  lemma {:induction false} VisibleExactly(v: View, t: Tree)
    ensures v.oper ==> Visible(v, t) == t
    ensures !v.oper ==> NothingHidden(v, Visible(v, t)) && (Visible(v, t) == t <==> NothingHidden(v, t))
    decreases t
  {
    AllVisibleExactly(v, t.children);
    assert Visible(v, t) == t <==> VisibleAll(v, t.children) == t.children;
  }

  ghost predicate NoneHidden(v: View, ts: seq<Tree>) {
    forall i | 0 <= i < |ts| :: !ts[i].hidden && !(ts[i].service && v.hideServices) && NothingHidden(v, ts[i])
  }

  lemma {:induction false} AllVisibleExactly(v: View, ts: seq<Tree>)
    ensures v.oper ==> VisibleAll(v, ts) == ts
    ensures !v.oper ==> NoneHidden(v, VisibleAll(v, ts)) && (VisibleAll(v, ts) == ts <==> NoneHidden(v, ts))
    ensures |VisibleAll(v, ts)| <= |ts|
    decreases ts
  {
    if ts != [] {
      var t, rest := ts[0], ts[1..];
      VisibleExactly(v, t);
      AllVisibleExactly(v, rest);
      assert ts == [t] + rest;
      NoneHiddenCons(v, t, rest);
      NoneHiddenCons(v, Visible(v, t), VisibleAll(v, rest));
      SameCons(Visible(v, t), VisibleAll(v, rest), t, rest);
    }
  }

  lemma SameCons(t: Tree, ts: seq<Tree>, u: Tree, us: seq<Tree>)
    ensures [t] + ts == [u] + us <==> t == u && ts == us
  {
    var a, b := [t] + ts, [u] + us;
    assert a[0] == t && a[1..] == ts && b[0] == u && b[1..] == us;
  }

  lemma NoneHiddenCons(v: View, t: Tree, ts: seq<Tree>)
    ensures NoneHidden(v, [t] + ts) <==>
            !t.hidden && !(t.service && v.hideServices) && NothingHidden(v, t) && NoneHidden(v, ts)
  {
    var s := [t] + ts;
    assert s[0] == t && forall i | 0 <= i < |ts| :: s[i + 1] == ts[i];
    assert forall i | 1 <= i < |s| :: s[i] == ts[i - 1];
  }

  lemma {:induction false} DashesAre(n: int)
    ensures |Dashes(n)| == (if n <= 0 then 0 else n) && forall i | 0 <= i < |Dashes(n)| :: Dashes(n)[i] == '-'
  {
    if n > 0 {
      DashesAre(n - 1);
    }
  }

  /** Wherever the label leaves room, the bar after the dashes stands in one and the same column. */
  lemma BarsAlign(v: View, t: Tree, prompt: string)
    requires |prompt| <= DEEPEST
    ensures var l := LineOf(v, t, prompt); var column := |Bar(v, t, |prompt|)| - 1;
            && column < |l.body| && l.body[column] == '|'
            && |l.prompt| + column == if |prompt| + |Label(v, t)| <= 49 then 51 else |prompt| + |Label(v, t)| + 2
  {
    DashesAre(49 - |Label(v, t)| - |prompt|);
  }

  /** The number that a field of blanks and digits shows. */
  ghost function Number(s: string): int {
    if s == "" then 0
    else
      var c := s[|s| - 1];
      10 * Number(s[..|s| - 1]) + if c == ' ' then 0 else c as int - '0' as int
  }

  ghost predicate AllDigits(s: string) {
    forall i | 0 <= i < |s| :: '0' <= s[i] <= '9'
  }

  lemma NumberSnoc(s: string, k: nat)
    requires AllDigits(s) && k < 10
    ensures var t := s + ['0' + k as char]; AllDigits(t) && Number(t) == 10 * Number(s) + k
  {
    var t := s + ['0' + k as char];
    assert t[..|t| - 1] == s && t[|s|] as int == '0' as int + k;
  }

  lemma {:induction false} DecimalIs(n: nat)
    ensures Decimal(n) != "" && AllDigits(Decimal(n)) && Number(Decimal(n)) == n
  {
    if n < 10 {
      NumberSnoc("", n);
    } else {
      DecimalIs(n / 10);
      NumberSnoc(Decimal(n / 10), n % 10);
    }
  }

  lemma {:induction false} BlankNumber(k: nat, s: string)
    requires s != "" && forall i | 0 <= i < |s| :: '0' <= s[i] <= '9'
    ensures Number(seq(k, _ => ' ') + s) == Number(s)
    decreases |s|, k
  {
    var b: string := seq(k, _ => ' ');
    var t := b + s;
    assert t[..|t| - 1] == b + s[..|s| - 1];
    if |s| > 1 {
      BlankNumber(k, s[..|s| - 1]);
    } else {
      assert b + s[..0] == b;
      BlankZero(k);
    }
  }

  lemma {:induction false} BlankZero(k: nat)
    ensures Number(seq(k, _ => ' ')) == 0
  {
    var b: string := seq(k, _ => ' ');
    if k > 0 {
      assert b[..k - 1] == seq(k - 1, _ => ' ');
      BlankZero(k - 1);
    }
  }

  /** Blanks and digits, five places or more, and no blank in front when there are more. */
  ghost predicate Field(s: string) {
    && |s| >= 5 && (|s| > 5 ==> s[0] != ' ')
    && forall i | 0 <= i < |s| :: s[i] == ' ' || '0' <= s[i] <= '9'
  }

  lemma PaddedIs(n: nat)
    ensures Number(Padded(n)) == n && Field(Padded(n))
  {
    DecimalIs(n);
    FieldOf(Decimal(n), Padded(n));
  }

  lemma FieldOf(d: string, p: string)
    requires d != "" && AllDigits(d) && p == if |d| < 5 then seq(5 - |d|, _ => ' ') + d else d
    ensures Number(p) == Number(d) && Field(p)
  {
    if |d| < 5 {
      BlankNumber(5 - |d|, d);
      BlanksThen(5 - |d|, d);
    }
  }

  lemma BlanksThen(k: nat, s: string)
    requires forall i | 0 <= i < |s| :: '0' <= s[i] <= '9'
    ensures var t := seq(k, _ => ' ') + s;
            |t| == k + |s| && forall i | 0 <= i < |t| :: t[i] == ' ' || '0' <= t[i] <= '9'
  {
  }

  /**
   The line of a server: its name, its identifier for operators only, dashes that fill up 49 columns,
   and its users, right-aligned in five places, with their share.  Behind a prompt of more than 60
   characters there is only the name.
   */
  lemma LineText(v: View, t: Tree, prompt: string) returns (text: string, dashes: string, digits: string)
    ensures text == t.name + if v.oper && t.id != "" then "[" + t.id + "]" else ""
    ensures |dashes| == (if |text| + |prompt| >= 49 then 0 else 49 - |text| - |prompt|)
    ensures forall i | 0 <= i < |dashes| :: dashes[i] == '-'
    ensures Field(digits) && Number(digits) == t.users
    ensures LineOf(v, t, prompt) ==
            if |prompt| > 60 then More(prompt, t.name)
            else Map(prompt, text + " " + dashes + " | Users: " + digits + " (" + v.percent(t.users) + "%)")
  {
    text := Label(v, t);
    dashes, digits := Dashes(49 - |text| - |prompt|), Padded(t.users);
    DashesAre(49 - |text| - |prompt|);
    PaddedIs(t.users);
    var head := text + " " + dashes;
    assert head + " |" + (" Users: " + digits + " (" + v.percent(t.users) + "%)") ==
           head + " | Users: " + digits + " (" + v.percent(t.users) + "%)";
  }

  // ---------------------------------------------------------------------------------------
  // A small map
  // ---------------------------------------------------------------------------------------

  function Leaf(name: string): Tree {
    Server(name, "", false, false, 0, [])
  }

  function Sample(): Tree {
    Server("hub", "", false, false, 9,
           [Leaf("a").(children := [Leaf("b")]), Leaf("x").(hidden := true, children := [Leaf("y")]),
            Leaf("services").(service := true), Leaf("c")])
  }

  lemma SampleIsLow(a: Tree, b: Tree, c: Tree)
    requires a.children == [b] && b.children == c.children == []
    ensures Heights([a, c]) == 2
  {
    assert [a, c][1..] == [c] && [c][1..] == [] && [b][1..] == [];
    assert Height(b) == 0 && Heights([b]) == 1 && Heights([c]) == 1;
  }

  /** A user asks where services are hidden: neither they nor the hidden server and what is below it show. */
  lemma SampleForUser(v: View)
    requires !v.oper && v.hideServices
    ensures Printed(v, Sample(), "") ==
            [LineOf(v, Sample(), ""), LineOf(v, Leaf("a"), "|-"), LineOf(v, Leaf("b"), "| `-"),
             LineOf(v, Leaf("c"), "`-")]
  {
    var t := Sample();
    var a, b, c := t.children[0], Leaf("b"), Leaf("c");
    SampleVisible(v, a, b, t.children[1], t.children[2], c);
    SampleDrawn(v, t, a, b, c);
  }

  lemma SampleDrawn(v: View, t: Tree, a: Tree, b: Tree, c: Tree)
    requires VisibleAll(v, t.children) == [a, c] && a.children == [b] && b.children == c.children == []
    requires a.name == "a" && a.id == "" && a.users == 0
    ensures Printed(v, t, "") ==
            [LineOf(v, t, ""), LineOf(v, Leaf("a"), "|-"), LineOf(v, b, "| `-"), LineOf(v, c, "`-")]
  {
    SampleIsLow(a, b, c);
    MapIsRight(v, t);
    VisibleLine(v, t, "");
    SampleSketches(v, a, b, c);
    assert "" + Glyph(Root) == "" && "" + Stem(Root) == "";
  }

  lemma SampleVisible(v: View, a: Tree, b: Tree, x: Tree, s: Tree, c: Tree)
    requires !v.oper && v.hideServices && x.hidden && s.service
    requires a == Leaf("a").(children := [b]) && b == Leaf("b") && c == Leaf("c")
    ensures VisibleAll(v, [a, x, s, c]) == [a, c]
  {
    SeenCons(v, b, []);
    SeenCons(v, c, []);
    SeenCons(v, s, [c]);
    SeenCons(v, x, [s, c]);
    SeenCons(v, a, [x, s, c]);
    assert [a, x, s, c] == [a] + [x, s, c] && [x, s, c] == [x] + [s, c] && [s, c] == [s] + [c];
    assert [c] == [c] + [] && [b] == [b] + [];
  }

  lemma SeenCons(v: View, t: Tree, ts: seq<Tree>)
    ensures VisibleAll(v, [t] + ts) ==
            (if v.oper || !(t.hidden || (t.service && v.hideServices)) then [Visible(v, t)] else []) + VisibleAll(v, ts)
  {
    assert ([t] + ts)[1..] == ts;
  }

  lemma SampleSketches(v: View, a: Tree, b: Tree, c: Tree)
    requires a.children == [b] && b.children == c.children == [] && a.name == "a" && a.id == "" && a.users == 0
    ensures Sketches(v, [a, c], "") == [LineOf(v, Leaf("a"), "|-"), LineOf(v, b, "| `-"), LineOf(v, c, "`-")]
  {
    SketchesCons(v, c, [], "");
    SketchesCons(v, b, [], "| ");
    SketchesCons(v, a, [c], "");
    assert [a, c] == [a] + [c] && [c] == [c] + [] && [b] == [b] + [];
    assert LineOf(v, a, "|-") == LineOf(v, Leaf("a"), "|-");
    assert "" + Glyph(Last) == "`-" && "" + Glyph(Middle) == "|-" && "| " + Glyph(Last) == "| `-";
    assert "" + Stem(Middle) == "| ";
  }

  // ---------------------------------------------------------------------------------------
  // A tree that is drawn wrongly
  // ---------------------------------------------------------------------------------------

  /** A server with these children and nothing to hide. */
  function Plain(children: seq<Tree>): Tree {
    Server("irc", "", false, false, 0, children)
  }

  /** A tree under a row of n servers. */
  function Under(n: nat, t: Tree): Tree {
    if n == 0 then t else Plain([Under(n - 1, t)])
  }

  lemma {:induction false} UnderNarrow(v: View, n: nat, t: Tree, depth: nat)
    requires 2 * (depth + n) <= DEEPEST && Shows(v, t)
    ensures Shows(v, Under(n, t)) && (Narrow(v, Under(n, t), depth) <==> Narrow(v, t, depth + n))
  {
    if n > 0 {
      UnderNarrow(v, n - 1, t, depth + 1);
      OneNarrow(v, Under(n - 1, t), depth + 1);
    }
  }

  lemma OneNarrow(v: View, t: Tree, depth: nat)
    ensures AllNarrow(v, [t], depth) <==> (Shows(v, t) ==> Narrow(v, t, depth))
  {
    assert [t][1..] == [] && AllNarrow(v, [t][1..], depth);
  }

  lemma TwoCount(v: View, a: Tree, b: Tree)
    requires Shows(v, a) && Shows(v, b)
    ensures Count(v, [a, b]) == 2
  {
    assert [b][1..] == [] && Count(v, [b]) == 1;
    assert [a, b][1..] == [b];
  }

  /** Thirty servers in a row and two below the last: whoever asks, the second of the two is drawn wrongly. */
  lemma TwinsAtDepth31(v: View)
    ensures var t := Under(30, Plain([Plain([]), Plain([])])); Printed(v, t, "") != Sketch(v, Visible(v, t), "", Root)
  {
    var twins := Plain([Plain([]), Plain([])]);
    TwoCount(v, Plain([]), Plain([]));
    UnderNarrow(v, 30, twins, 0);
    NarrowIsSlim(v, Under(30, twins), 0);
    MapIsRight(v, Under(30, twins));
  }
}
