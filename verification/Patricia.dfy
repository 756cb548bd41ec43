/**
 The walk over a Patricia tree with an explicit stack of PATRICIA_MAXBITS + 1 nodes.

 The walk only reads the tree, so the tree is a value; the body of the walk is a parameter that says
 at which nodes it breaks off.
 */
module Patricia {
  import opened Basics

  const MAXBITS := 128

  datatype Tree<P> = Nil | Node(bit: nat, prefix: Option<P>, l: Tree<P>, r: Tree<P>)

  /** Bit indices grow strictly downward and stay within the address. */
  ghost predicate Ordered<P>(t: Tree<P>, above: nat) {
    t.Node? ==> above <= t.bit <= MAXBITS && Ordered(t.l, t.bit + 1) && Ordered(t.r, t.bit + 1)
  }

  /** The body runs at nodes with a prefix only, and breaks off there or not. */
  predicate Breaks<P>(t: Tree<P>, brk: P -> bool) {
    t.Node? && t.prefix.Some? && brk(t.prefix.value)
  }

  ghost function Own<P>(t: Tree<P>): seq<P> {
    if t.Node? && t.prefix.Some? then [t.prefix.value] else []
  }

  /** The prefixes a recursive walk comes to, node before left before right. */
  ghost function Visits<P>(t: Tree<P>, brk: P -> bool): seq<P> {
    if t.Nil? then []
    else if Breaks(t, brk) then Own(t)
    else Own(t) + Visits(t.l, brk) + Visits(t.r, brk)
  }

  /** What the nodes on the stack still have to give, from the top down. */
  ghost function Pending<P>(stack: seq<Tree<P>>, brk: P -> bool): seq<P> {
    if stack == [] then [] else Visits(stack[|stack| - 1], brk) + Pending(stack[..|stack| - 1], brk)
  }

  /** The nodes on the stack are proper, and each is deeper than its place. */
  ghost predicate StackOk<P>(stack: seq<Tree<P>>) {
    forall i | 0 <= i < |stack| :: stack[i].Node? && Ordered(stack[i], i + 1)
  }

  lemma {:induction false} OrderedLower<P>(t: Tree<P>, a: nat, b: nat)
    requires Ordered(t, a) && b <= a
    ensures Ordered(t, b)
  {
  }

  lemma Regroup<P>(a: seq<P>, b: seq<P>, c: seq<P>, d: seq<P>, e: seq<P>)
    ensures a + ((b + c + d) + e) == a + b + (c + (d + e))
  {
  }

  ghost function Weight<P>(t: Tree<P>): nat {
    if t.Nil? then 0 else 1 + Weight(t.l) + Weight(t.r)
  }

  ghost function Weights<P>(stack: seq<Tree<P>>): nat {
    if stack == [] then 0 else Weight(stack[|stack| - 1]) + Weights(stack[..|stack| - 1])
  }

  /** PATRICIA_WALK_BREAK: back to the top of the stack, if there is one. */
  method Pop<P>(stack: array<Tree<P>>, sp: nat, ghost brk: P -> bool) returns (next: Tree<P>, sp': nat)
    requires sp <= stack.Length && sp <= MAXBITS && StackOk(stack[..sp])
    ensures sp' <= sp && StackOk(stack[..sp']) && Ordered(next, sp') && (next.Nil? ==> sp' == 0)
    ensures Visits(next, brk) + Pending(stack[..sp'], brk) == Pending(stack[..sp], brk)
    ensures Weight(next) + Weights(stack[..sp']) == Weights(stack[..sp])
  {
    if sp != 0 {
      next, sp' := stack[sp - 1], sp - 1;
      assert stack[..sp][..sp'] == stack[..sp'] && stack[..sp][sp'] == next;
      OrderedLower(next, sp, sp');
    } else {
      next, sp' := Nil, 0;
    }
  }

  lemma Pushed<P>(stack: seq<Tree<P>>, t: Tree<P>, brk: P -> bool)
    requires StackOk(stack) && t.Node? && Ordered(t, |stack| + 1)
    ensures StackOk(stack + [t])
    ensures Pending(stack + [t], brk) == Visits(t, brk) + Pending(stack, brk)
    ensures Weights(stack + [t]) == Weight(t) + Weights(stack)
  {
    assert (stack + [t])[..|stack|] == stack;
  }

  method Push<P>(stack: array<Tree<P>>, sp: nat, t: Tree<P>, ghost brk: P -> bool)
    requires sp < stack.Length && StackOk(stack[..sp]) && t.Node? && Ordered(t, sp + 1)
    modifies stack
    ensures StackOk(stack[..sp + 1])
    ensures Pending(stack[..sp + 1], brk) == Visits(t, brk) + Pending(old(stack[..sp]), brk)
    ensures Weights(stack[..sp + 1]) == Weight(t) + Weights(old(stack[..sp]))
  {
    Pushed(stack[..sp], t, brk);
    stack[sp] := t;
    assert stack[..sp + 1] == old(stack[..sp]) + [t];
  }

  /** PATRICIA_WALK_END: down to the left with the right kept, down to the right, or back. */
  method Advance<P>(xrn: Tree<P>, stack: array<Tree<P>>, sp: nat, ghost brk: P -> bool)
      returns (next: Tree<P>, sp': nat)
    requires stack.Length == MAXBITS + 1 && sp <= MAXBITS && StackOk(stack[..sp])
    requires xrn.Node? && Ordered(xrn, sp)
    modifies stack
    ensures sp' <= MAXBITS && StackOk(stack[..sp']) && Ordered(next, sp') && (next.Nil? ==> sp' == 0)
    ensures Visits(next, brk) + Pending(stack[..sp'], brk) ==
            Visits(xrn.l, brk) + (Visits(xrn.r, brk) + Pending(old(stack[..sp]), brk))
    ensures Weight(next) + Weights(stack[..sp']) == Weight(xrn) - 1 + Weights(old(stack[..sp]))
  {
    sp' := sp;
    if xrn.l.Node? {
      next := xrn.l;
      OrderedLower(next, xrn.bit + 1, sp);
      if xrn.r.Node? {
        OrderedLower(next, xrn.bit + 1, sp + 1);
        OrderedLower(xrn.r, xrn.bit + 1, sp + 1);
        Push(stack, sp, xrn.r, brk);
        sp' := sp + 1;
      }
    } else if xrn.r.Node? {
      next := xrn.r;
      OrderedLower(next, xrn.bit + 1, sp);
    } else {
      next, sp' := Pop(stack, sp, brk);
    }
  }

  /**
   PATRICIA_WALK ... PATRICIA_WALK_END, with PATRICIA_WALK_BREAK where brk says so.  The stack never
   overflows.
   */
  method Walk<P>(head: Tree<P>, brk: P -> bool) returns (seen: seq<P>)
    requires Ordered(head, 0)
    ensures seen == Visits(head, brk)
  {
    var stack := new Tree<P>[MAXBITS + 1](_ => Nil);
    var sp: nat := 0;
    var xrn := head;
    seen := [];
    while xrn.Node?
      invariant sp <= MAXBITS && StackOk(stack[..sp]) && Ordered(xrn, sp) && (xrn.Nil? ==> sp == 0)
      invariant seen + (Visits(xrn, brk) + Pending(stack[..sp], brk)) == Visits(head, brk)
      decreases Weight(xrn) + Weights(stack[..sp])
    {
      WalkStep(seen, xrn, stack[..sp], brk);
      if xrn.prefix.Some? {
        seen := seen + [xrn.prefix.value];
        if brk(xrn.prefix.value) {
          xrn, sp := Pop(stack, sp, brk);
          continue;
        }
      }
      xrn, sp := Advance(xrn, stack, sp, brk);
    }
  }

  lemma WalkStep<P>(seen: seq<P>, t: Tree<P>, stack: seq<Tree<P>>, brk: P -> bool)
    requires t.Node?
    ensures seen + (Visits(t, brk) + Pending(stack, brk)) ==
            seen + Own(t) + if Breaks(t, brk) then Pending(stack, brk)
                            else Visits(t.l, brk) + (Visits(t.r, brk) + Pending(stack, brk))
    ensures seen + [] == seen
  {
    var rest := Pending(stack, brk);
    if Breaks(t, brk) {
      assert seen + (Own(t) + rest) == seen + Own(t) + rest;
    } else {
      Regroup(seen, Own(t), Visits(t.l, brk), Visits(t.r, brk), rest);
    }
  }

  // ---------------------------------------------------------------------------------------
  // Exactly which nodes are visited
  // ---------------------------------------------------------------------------------------

  /** A node is found from the head by going left (false) and right (true). */
  ghost function At<P>(t: Tree<P>, path: seq<bool>): Tree<P> {
    if path == [] || t.Nil? then t else At(if path[0] then t.r else t.l, path[1..])
  }

  /** The body runs here: there is a prefix, and no node above broke off. */
  ghost predicate Reached<P>(t: Tree<P>, path: seq<bool>, brk: P -> bool) {
    && At(t, path).Node? && At(t, path).prefix.Some?
    && forall i | 0 <= i < |path| ::
         var n := At(t, path[..i]); !(n.Node? && n.prefix.Some? && brk(n.prefix.value))
  }

  ghost function Down(step: bool, paths: seq<seq<bool>>): seq<seq<bool>> {
    seq(|paths|, i requires 0 <= i < |paths| => [step] + paths[i])
  }

  ghost function VisitedPaths<P>(t: Tree<P>, brk: P -> bool): seq<seq<bool>> {
    if t.Nil? then []
    else
      (if t.prefix.Some? then [[]] else []) +
      if Breaks(t, brk) then [] else Down(false, VisitedPaths(t.l, brk)) + Down(true, VisitedPaths(t.r, brk))
  }

  /** Node before left before right. */
  ghost predicate Before(a: seq<bool>, b: seq<bool>) {
    b != [] && (a == [] || (!a[0] && b[0]) || (a[0] == b[0] && Before(a[1..], b[1..])))
  }

  lemma DownAt<P>(t: Tree<P>, step: bool, path: seq<bool>, brk: P -> bool)
    requires t.Node?
    ensures At(t, [step] + path) == At(if step then t.r else t.l, path)
    ensures Reached(t, [step] + path, brk) <==> !Breaks(t, brk) && Reached(if step then t.r else t.l, path, brk)
  {
    var p, c := [step] + path, if step then t.r else t.l;
    assert p[1..] == path;
    assert At(t, p[..0]) == t;
    forall i | 0 <= i < |path| ensures At(t, p[..i + 1]) == At(c, path[..i]) {
      assert p[..i + 1][1..] == path[..i];
    }
    if Reached(t, p, brk) {
      forall i | 0 <= i < |path| ensures !Breaks(At(c, path[..i]), brk) {
        assert !Breaks(At(t, p[..i + 1]), brk);
      }
    }
    if !Breaks(t, brk) && Reached(c, path, brk) {
      forall i | 0 <= i < |p| ensures !Breaks(At(t, p[..i]), brk) {
        assert i > 0 ==> !Breaks(At(c, path[..i - 1]), brk);
      }
    }
  }

  lemma InDown(step: bool, paths: seq<seq<bool>>, p: seq<bool>)
    ensures p in Down(step, paths) <==> p != [] && p[0] == step && p[1..] in paths
  {
    if p != [] && p[0] == step && p[1..] in paths {
      var i :| 0 <= i < |paths| && paths[i] == p[1..];
      assert Down(step, paths)[i] == p;
    }
  }

  /** A node is visited exactly when the walk reaches it. */
  lemma {:induction false} VisitedExactly<P>(t: Tree<P>, path: seq<bool>, brk: P -> bool)
    ensures path in VisitedPaths(t, brk) <==> Reached(t, path, brk)
  {
    if t.Node? {
      InDown(false, VisitedPaths(t.l, brk), path);
      InDown(true, VisitedPaths(t.r, brk), path);
      if path != [] {
        assert path == [path[0]] + path[1..];
        DownAt(t, path[0], path[1..], brk);
        VisitedExactly(if path[0] then t.r else t.l, path[1..], brk);
      }
    }
  }

  ghost predicate Rising(paths: seq<seq<bool>>) {
    forall i, j | 0 <= i < j < |paths| :: Before(paths[i], paths[j])
  }

  lemma RisingDown(step: bool, paths: seq<seq<bool>>)
    requires Rising(paths)
    ensures Rising(Down(step, paths))
  {
    forall i, j | 0 <= i < j < |paths| ensures Before([step] + paths[i], [step] + paths[j]) {
      assert ([step] + paths[i])[1..] == paths[i] && ([step] + paths[j])[1..] == paths[j];
    }
  }

  lemma {:induction false} BeforeIsStrict(a: seq<bool>)
    ensures !Before(a, a)
  {
    if a != [] {
      BeforeIsStrict(a[1..]);
    }
  }

  lemma {:induction false} VisitsRise<P>(t: Tree<P>, brk: P -> bool)
    ensures Rising(VisitedPaths(t, brk))
  {
    if t.Node? && !Breaks(t, brk) {
      VisitsRise(t.l, brk);
      VisitsRise(t.r, brk);
      RisingDown(false, VisitedPaths(t.l, brk));
      RisingDown(true, VisitedPaths(t.r, brk));
    }
  }

  /** In preorder, hence each node once. */
  lemma VisitedInOrder<P>(t: Tree<P>, brk: P -> bool)
    ensures Rising(VisitedPaths(t, brk)) && Distinct(VisitedPaths(t, brk))
  {
    var paths := VisitedPaths(t, brk);
    VisitsRise(t, brk);
    forall i, j | 0 <= i < j < |paths| ensures paths[i] != paths[j] {
      BeforeIsStrict(paths[i]);
      assert Before(paths[i], paths[j]);
    }
  }

  lemma {:induction false} AsManyVisits<P>(t: Tree<P>, brk: P -> bool)
    ensures |Visits(t, brk)| == |VisitedPaths(t, brk)|
  {
    if t.Node? {
      AsManyVisits(t.l, brk);
      AsManyVisits(t.r, brk);
    }
  }

  /** The prefixes seen are those at the visited places, in that order. */
  lemma {:induction false} VisitsAtPaths<P>(t: Tree<P>, brk: P -> bool, i: nat)
    requires i < |Visits(t, brk)|
    ensures |Visits(t, brk)| == |VisitedPaths(t, brk)|
    ensures var n := At(t, VisitedPaths(t, brk)[i]); n.Node? && n.prefix == Some(Visits(t, brk)[i])
  {
    AsManyVisits(t, brk);
    if t.Node? && !Breaks(t, brk) && i >= |Own(t)| {
      AsManyVisits(t.l, brk);
      AsManyVisits(t.r, brk);
      var j := i - |Own(t)|;
      var right := j >= |Visits(t.l, brk)|;
      var c := if right then t.r else t.l;
      var k := if right then j - |Visits(t.l, brk)| else j;
      VisitsAtPaths(c, brk, k);
      DownAt(t, right, VisitedPaths(c, brk)[k], brk);
    }
  }
}
