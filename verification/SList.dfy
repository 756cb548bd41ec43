/**
 Singly linked lists relinked in place: the chained-list library of libltdl.

 A list is a pointer to its first node. Chain(head, s) ties that pointer to the sequence of
 nodes it leads through, which is what makes a list acyclic and ending in null.
 */
module SLists {
  import opened Basics

  class SList<T(0)> {
    var next: SList?<T>
    const userdata: T

    constructor (userdata: T)
      ensures this.userdata == userdata && next == null
    {
      this.userdata := userdata;
      next := null;
    }
  }

  ghost predicate Disjoint<X>(s: seq<X>, t: seq<X>) {
    Elems(s) !! Elems(t)
  }

  /** The node at index i, or null past the end. */
  ghost function At<T(0)>(s: seq<SList<T>>, i: nat): SList?<T> {
    if i < |s| then s[i] else null
  }

  /** Starting at head and following next, the nodes are exactly s, each once, then null. */
  ghost predicate Chain<T(0)>(head: SList?<T>, s: seq<SList<T>>)
    reads s
  {
    && Distinct(s)
    && head == At(s, 0)
    && forall i {:trigger s[i].next} | 0 <= i < |s| :: s[i].next == At(s, i + 1)
  }

  /** A chain determines its node sequence: two readings of the same list agree. */
  lemma {:induction false} ChainUnique<T(0)>(head: SList?<T>, s: seq<SList<T>>, t: seq<SList<T>>)
    requires Chain(head, s) && Chain(head, t)
    ensures s == t
  {
    if s != [] {
      ChainTail(s[0], s);
      ChainTail(t[0], t);
      ChainUnique(s[0].next, s[1..], t[1..]);
      assert s == [s[0]] + s[1..] && t == [t[0]] + t[1..];
    }
  }

  lemma ChainTail<T(0)>(head: SList<T>, s: seq<SList<T>>)
    requires Chain(head, s)
    ensures s != [] && Chain(head.next, s[1..]) && head !in s[1..]
  {
    forall i {:trigger s[1..][i].next} | 0 <= i < |s[1..]|
      ensures s[1..][i].next == At(s[1..], i + 1)
    {
      assert s[1..][i] == s[i + 1];
      assert s[i + 1].next == At(s, i + 2);
    }
  }

  // ---------------------------------------------------------------------------------------
  // Building and editing
  // ---------------------------------------------------------------------------------------

  method Cons<T(0)>(item: SList?<T>, slist: SList?<T>, ghost s: seq<SList<T>>) returns (r: SList?<T>)
    requires Chain(slist, s)
    requires item != null ==> item !in s && item.next == null
    modifies item
    ensures item == null ==> r == slist
    ensures Chain(r, if item == null then s else [item] + s)
  {
    if item == null {
      return slist;
    }
    item.next := slist;
    r := item;
    ghost var t := [item] + s;
    forall i {:trigger t[i].next} | 0 <= i < |t|
      ensures t[i].next == At(t, i + 1)
    {
      if i > 0 {
        assert t[i] == s[i - 1];
        assert s[i - 1].next == At(s, i);
      }
    }
  }

  method Concat<T(0)>(head: SList?<T>, tail: SList?<T>, ghost s: seq<SList<T>>, ghost t: seq<SList<T>>)
      returns (r: SList?<T>)
    requires Chain(head, s) && Chain(tail, t) && Disjoint(s, t)
    modifies s
    ensures Chain(r, s + t)
  {
    if head == null {
      assert s + t == t;
      return tail;
    }
    var last := head;
    ghost var k := 0;
    while last.next != null
      invariant k < |s| && last == s[k]
      decreases |s| - k
    {
      assert s[k].next == At(s, k + 1);
      last := last.next;
      k := k + 1;
    }
    assert s[k].next == At(s, k + 1);
    last.next := tail;
    r := head;
    ghost var u := s + t;
    forall i, j | 0 <= i < j < |u|
      ensures u[i] != u[j]
    {
      if i < |s| <= j {
        assert u[i] in Elems(s) && u[j] in Elems(t);
      }
    }
    forall i {:trigger u[i].next} | 0 <= i < |u|
      ensures u[i].next == At(u, i + 1)
    {
      if i < |s| {
        assert u[i] == s[i];
        if i < k {
          assert s[i] != s[k];
          assert old(s[i].next) == At(s, i + 1);
        }
      } else {
        assert u[i] == t[i - |s|] && t[i - |s|] in Elems(t) && last in Elems(s);
        assert t[i - |s|].next == At(t, i - |s| + 1);
      }
    }
  }

  ghost function Reversed<X>(s: seq<X>): (r: seq<X>)
    ensures |r| == |s|
  {
    seq(|s|, i requires 0 <= i < |s| => s[|s| - 1 - i])
  }

  method Reverse<T(0)>(slist0: SList?<T>, ghost s: seq<SList<T>>) returns (result: SList?<T>)
    requires Chain(slist0, s)
    modifies s
    ensures Chain(result, Reversed(s))
  {
    var slist := slist0;
    result := null;
    ghost var k := 0;
    while slist != null
      invariant k <= |s| && slist == At(s, k)
      invariant Chain(result, Reversed(s[..k]))
      invariant forall i {:trigger s[i].next} | k <= i < |s| :: s[i].next == At(s, i + 1)
      decreases |s| - k
    {
      ghost var done := Reversed(s[..k]);
      var next := slist.next;
      assert s[k].next == At(s, k + 1);
      assert slist !in done by {
        forall i | 0 <= i < |done| ensures done[i] != slist {
          assert done[i] == s[k - 1 - i];
        }
      }
      slist.next := result;
      result := slist;
      ghost var t := Reversed(s[..k + 1]);
      assert t == [slist] + done;
      forall i {:trigger t[i].next} | 0 <= i < |t|
        ensures t[i].next == At(t, i + 1)
      {
        if i > 0 {
          assert t[i] == done[i - 1] && done[i - 1] in done;
          assert done[i - 1].next == At(done, i);
        }
      }
      slist := next;
      k := k + 1;
    }
    assert s[..k] == s;
  }

  /** The index of the first item that find accepts, or |s|. */
  ghost function FirstMatch<X>(s: seq<X>, find: X -> bool): (k: nat)
    ensures k <= |s|
    ensures forall i | 0 <= i < k :: !find(s[i])
    ensures k < |s| ==> find(s[k])
  {
    if s == [] || find(s[0]) then 0
    else
      var k := FirstMatch(s[1..], find);
      assert forall i | 1 <= i < k + 1 :: s[i] == s[1..][i - 1];
      k + 1
  }

  lemma FirstMatchIs<X>(s: seq<X>, find: X -> bool, k: nat)
    requires k <= |s| && (forall i | 0 <= i < k :: !find(s[i])) && (k < |s| ==> find(s[k]))
    ensures FirstMatch(s, find) == k
  {
  }

  /** The list after node m - 1 has been made to skip node m. */
  lemma ChainUnlinked<T(0)>(head: SList?<T>, s: seq<SList<T>>, m: nat)
    requires 0 < m < |s| && Distinct(s) && head == s[0]
    requires s[m - 1].next == At(s, m + 1)
    requires forall i {:trigger s[i].next} | 0 <= i < |s| && i != m - 1 :: s[i].next == At(s, i + 1)
    ensures Chain(head, RemoveAt(s, m))
  {
    var t := RemoveAt(s, m);
    forall i {:trigger t[i].next} | 0 <= i < |t|
      ensures t[i].next == At(t, i + 1)
    {
      var j := if i < m then i else i + 1;
      assert t[i] == s[j];
      assert j != m - 1 ==> s[j].next == At(s, j + 1);
    }
  }

  /** Whether a callback answers with something for an item. */
  function Answers<X, R>(find: X -> Option<R>): X -> bool {
    x => find(x).Some?
  }

  /** What the callback answers for the first item that it answers anything for. */
  ghost function Answer<X, R>(s: seq<X>, find: X -> Option<R>): Option<R> {
    var k := FirstMatch(s, Answers(find));
    if k < |s| then find(s[k]) else None
  }

  lemma AnswerAt<X, R>(s: seq<X>, find: X -> Option<R>, k: nat)
    requires k <= |s| && forall i | 0 <= i < k :: find(s[i]).None?
    requires k < |s| ==> find(s[k]).Some?
    ensures FirstMatch(s, Answers(find)) == k
    ensures Answer(s, find) == if k < |s| then find(s[k]) else None
  {
    FirstMatchIs(s, Answers(find), k);
  }

  method Find<T(0), R>(slist0: SList?<T>, find: SList<T> -> Option<R>, ghost s: seq<SList<T>>)
      returns (result: Option<R>)
    requires Chain(slist0, s)
    ensures result == Answer(s, find)
  {
    result := None;
    var slist := slist0;
    ghost var k := 0;
    while slist != null
      invariant k <= |s| && slist == At(s, k) && result == None
      invariant forall i | 0 <= i < k :: find(s[i]).None?
      decreases |s| - k
    {
      result := find(slist);
      if result.Some? {
        AnswerAt(s, find, k);
        return;
      }
      assert s[k].next == At(s, k + 1);
      slist := slist.next;
      k := k + 1;
    }
    AnswerAt(s, find, k);
  }

  /** The pointer to the head is the in-out parameter phead of the original. */
  method Remove<T(0), R>(phead: SList?<T>, find: SList<T> -> Option<R>, ghost s: seq<SList<T>>)
      returns (phead': SList?<T>, result: Option<R>)
    requires Chain(phead, s)
    modifies s
    ensures result == Answer(s, find)
    ensures Chain(phead', RemoveAt(s, FirstMatch(s, Answers(find))))
  {
    phead', result := phead, None;
    if phead == null {
      return;
    }
    result := find(phead);
    if result.Some? {
      AnswerAt(s, find, 0);
      phead' := phead.next;
      ChainTail(phead, s);
      assert RemoveAt(s, 0) == s[1..];
    } else {
      result := RemoveBehind(phead, find, s);
    }
  }

  /** The loop of slist_remove, behind a head that stays. */
  method RemoveBehind<T(0), R>(phead: SList<T>, find: SList<T> -> Option<R>, ghost s: seq<SList<T>>)
      returns (result: Option<R>)
    requires Chain(phead, s) && find(phead).None?
    modifies s
    ensures result == Answer(s, find)
    ensures Chain(phead, RemoveAt(s, FirstMatch(s, Answers(find))))
  {
    result := None;
    var head := phead;
    ghost var k := 0;
    while head.next != null
      invariant k < |s| && head == s[k] && result == None && Chain(phead, s)
      invariant forall i | 0 <= i <= k :: find(s[i]).None?
      decreases |s| - k
    {
      assert s[k].next == At(s, k + 1);
      result := find(head.next);
      if result.Some? {
        AnswerAt(s, find, k + 1);
        Skip(head, phead, s, k);
        return;
      }
      head := head.next;
      k := k + 1;
    }
    assert s[k].next == At(s, k + 1);
    AnswerAt(s, find, |s|);
  }

  /** The relinking: the node behind head leaves the list. */
  method Skip<T(0)>(head: SList<T>, phead: SList<T>, ghost s: seq<SList<T>>, ghost k: nat)
    requires Chain(phead, s) && k + 1 < |s| && head == s[k]
    modifies head
    ensures Chain(phead, RemoveAt(s, k + 1))
  {
    assert s[k].next == At(s, k + 1) && s[k + 1].next == At(s, k + 2);
    var stale := head.next;
    head.next := stale.next;
    forall i {:trigger s[i].next} | 0 <= i < |s| && i != k
      ensures s[i].next == At(s, i + 1)
    {
      assert s[i] != s[k];
      assert old(s[i].next) == At(s, i + 1);
    }
    ChainUnlinked(phead, s, k + 1);
  }

  // ---------------------------------------------------------------------------------------
  // The stable sort that slist_sort is to compute, as an insertion sort
  // ---------------------------------------------------------------------------------------

  ghost function Insert<X>(x: X, s: seq<X>, cmp: (X, X) -> int): seq<X> {
    if s == [] then [x]
    else if cmp(x, s[0]) <= 0 then [x] + s
    else [s[0]] + Insert(x, s[1..], cmp)
  }

  ghost function StableSort<X>(s: seq<X>, cmp: (X, X) -> int): seq<X> {
    if s == [] then [] else Insert(s[0], StableSort(s[1..], cmp), cmp)
  }

  /** On the items of d, "cmp(x, y) <= 0" is total and transitive. */
  ghost predicate Preorder<X>(d: set<X>, cmp: (X, X) -> int) {
    && (forall x, y {:trigger cmp(x, y)} | x in d && y in d :: cmp(x, y) <= 0 || cmp(y, x) <= 0)
    && (forall x, y, z {:trigger cmp(x, y), cmp(y, z)} |
          x in d && y in d && z in d :: cmp(x, y) <= 0 && cmp(y, z) <= 0 ==> cmp(x, z) <= 0)
  }

  ghost predicate Within<X>(s: seq<X>, d: set<X>) {
    forall i | 0 <= i < |s| :: s[i] in d
  }

  lemma WithinElems<X>(s: seq<X>)
    ensures Within(s, Elems(s))
  {
  }

  ghost predicate Sorted<X>(s: seq<X>, cmp: (X, X) -> int) {
    forall i, j | 0 <= i < j < |s| :: cmp(s[i], s[j]) <= 0
  }

  ghost predicate Tie<X>(x: X, y: X, cmp: (X, X) -> int) {
    cmp(x, y) <= 0 && cmp(y, x) <= 0
  }

  /** The items that compare equal to x, in order. */
  ghost function Ties<X>(x: X, s: seq<X>, cmp: (X, X) -> int): seq<X> {
    if s == [] then []
    else (if Tie(x, s[0], cmp) then [s[0]] else []) + Ties(x, s[1..], cmp)
  }

  lemma {:induction false} InsertPermutes<X>(x: X, s: seq<X>, cmp: (X, X) -> int)
    ensures multiset(Insert(x, s, cmp)) == multiset(s) + multiset{x}
  {
    if s != [] {
      assert s == [s[0]] + s[1..];
      if cmp(x, s[0]) > 0 {
        InsertPermutes(x, s[1..], cmp);
      }
    }
  }

  lemma {:induction false} StableSortPermutes<X>(s: seq<X>, cmp: (X, X) -> int)
    ensures multiset(StableSort(s, cmp)) == multiset(s)
  {
    if s != [] {
      assert s == [s[0]] + s[1..];
      StableSortPermutes(s[1..], cmp);
      InsertPermutes(s[0], StableSort(s[1..], cmp), cmp);
    }
  }

  lemma SameElems<X>(s: seq<X>, t: seq<X>)
    requires multiset(s) == multiset(t)
    ensures |s| == |t| && Elems(s) == Elems(t)
  {
    assert |multiset(s)| == |s| && |multiset(t)| == |t|;
    forall x ensures x in Elems(s) <==> x in Elems(t) {
      assert x in s <==> x in multiset(s);
      assert x in t <==> x in multiset(t);
    }
  }

  lemma {:induction false} InsertWithin<X>(x: X, s: seq<X>, d: set<X>, cmp: (X, X) -> int)
    requires x in d && Within(s, d)
    ensures Within(Insert(x, s, cmp), d)
  {
    if s != [] && cmp(x, s[0]) > 0 {
      InsertWithin(x, s[1..], d, cmp);
    }
  }

  lemma {:induction false} StableSortWithin<X>(s: seq<X>, d: set<X>, cmp: (X, X) -> int)
    requires Within(s, d)
    ensures Within(StableSort(s, cmp), d)
  {
    if s != [] {
      StableSortWithin(s[1..], d, cmp);
      InsertWithin(s[0], StableSort(s[1..], cmp), d, cmp);
    }
  }

  /** A lower bound of x and of s is one of Insert(x, s). */
  lemma {:induction false} InsertAbove<X>(lo: X, x: X, s: seq<X>, cmp: (X, X) -> int)
    requires cmp(lo, x) <= 0 && forall j | 0 <= j < |s| :: cmp(lo, s[j]) <= 0
    ensures forall j | 0 <= j < |Insert(x, s, cmp)| :: cmp(lo, Insert(x, s, cmp)[j]) <= 0
  {
    if s != [] && cmp(x, s[0]) > 0 {
      InsertAbove(lo, x, s[1..], cmp);
    }
  }

  lemma {:induction false} InsertSorted<X>(x: X, s: seq<X>, d: set<X>, cmp: (X, X) -> int)
    requires Preorder(d, cmp) && x in d && Within(s, d) && Sorted(s, cmp)
    ensures Sorted(Insert(x, s, cmp), cmp)
  {
    if s != [] {
      if cmp(x, s[0]) <= 0 {
        forall j | 0 <= j < |s| ensures cmp(x, s[j]) <= 0 {
          assert s[0] in d && s[j] in d;
        }
      } else {
        InsertSorted(x, s[1..], d, cmp);
        assert s[0] in d;
        InsertAbove(s[0], x, s[1..], cmp);
      }
    }
  }

  lemma {:induction false} StableSortSorts<X>(s: seq<X>, d: set<X>, cmp: (X, X) -> int)
    requires Preorder(d, cmp) && Within(s, d)
    ensures Sorted(StableSort(s, cmp), cmp)
  {
    if s != [] {
      StableSortSorts(s[1..], d, cmp);
      StableSortWithin(s[1..], d, cmp);
      InsertSorted(s[0], StableSort(s[1..], cmp), d, cmp);
    }
  }

  lemma TiesCons<X>(y: X, x: X, s: seq<X>, cmp: (X, X) -> int)
    ensures Ties(y, [x] + s, cmp) == (if Tie(y, x, cmp) then [x] else []) + Ties(y, s, cmp)
  {
    assert ([x] + s)[1..] == s;
  }

  lemma {:induction false} InsertKeepsTies<X>(y: X, x: X, s: seq<X>, d: set<X>, cmp: (X, X) -> int)
    requires Preorder(d, cmp) && y in d && x in d && Within(s, d)
    ensures Ties(y, Insert(x, s, cmp), cmp) == Ties(y, [x] + s, cmp)
  {
    if s != [] && cmp(x, s[0]) > 0 {
      var tail := s[1..];
      InsertKeepsTies(y, x, tail, d, cmp);
      NotBothTie(y, x, s[0], d, cmp);
      BehindFirst(y, x, s, Insert(x, tail, cmp), cmp);
    }
  }

  /** Behind a first item that does not tie with it, x may as well be in front. */
  lemma BehindFirst<X>(y: X, x: X, s: seq<X>, t: seq<X>, cmp: (X, X) -> int)
    requires s != [] && !(Tie(y, x, cmp) && Tie(y, s[0], cmp)) && Ties(y, t, cmp) == Ties(y, [x] + s[1..], cmp)
    ensures Ties(y, [s[0]] + t, cmp) == Ties(y, [x] + s, cmp)
  {
    TiesCons(y, x, s[1..], cmp);
    TiesCons(y, x, s, cmp);
    TiesCons(y, s[0], t, cmp);
  }

  lemma NotBothTie<X>(y: X, x: X, z: X, d: set<X>, cmp: (X, X) -> int)
    requires Preorder(d, cmp) && y in d && x in d && z in d && cmp(x, z) > 0
    ensures !(Tie(y, x, cmp) && Tie(y, z, cmp))
  {
  }

  /** Items that compare equal keep their order. */
  lemma {:induction false} StableSortIsStable<X>(y: X, s: seq<X>, d: set<X>, cmp: (X, X) -> int)
    requires Preorder(d, cmp) && y in d && Within(s, d)
    ensures Ties(y, StableSort(s, cmp), cmp) == Ties(y, s, cmp)
  {
    if s != [] {
      var t := StableSort(s[1..], cmp);
      StableSortIsStable(y, s[1..], d, cmp);
      StableSortWithin(s[1..], d, cmp);
      InsertKeepsTies(y, s[0], t, d, cmp);
      TiesCons(y, s[0], t, cmp);
    }
  }

  /** Sorted and stable leave no freedom: any such arrangement of s is StableSort(s). */
  lemma StableSortUnique<X>(s: seq<X>, t: seq<X>, cmp: (X, X) -> int)
    requires Preorder(Elems(s), cmp)
    requires multiset(t) == multiset(s) && Sorted(t, cmp)
    requires forall y | y in s :: Ties(y, t, cmp) == Ties(y, s, cmp)
    ensures t == StableSort(s, cmp)
  {
    var r, d := StableSort(s, cmp), Elems(s);
    StableSortPermutes(s, cmp);
    StableSortSorts(s, d, cmp);
    SameElems(r, s);
    SameElems(t, s);
    WithinElems(s);
    WithinElems(r);
    WithinElems(t);
    forall y | y in d ensures Ties(y, r, cmp) == Ties(y, t, cmp) {
      assert y in s;
      StableSortIsStable(y, s, d, cmp);
    }
    SortedTiesDetermine(r, t, d, cmp);
  }

  lemma {:induction false} SortedTiesDetermine<X>(r: seq<X>, t: seq<X>, d: set<X>, cmp: (X, X) -> int)
    requires Preorder(d, cmp) && |r| == |t|
    requires Sorted(r, cmp) && Sorted(t, cmp) && Within(r, d) && Within(t, d)
    requires forall y | y in d :: Ties(y, r, cmp) == Ties(y, t, cmp)
    ensures r == t
  {
    if r != [] {
      SameHead(r, t, d, cmp);
      forall y | y in d ensures Ties(y, r[1..], cmp) == Ties(y, t[1..], cmp) {
        SameTail(y, r, t, cmp);
      }
      SortedTiesDetermine(r[1..], t[1..], d, cmp);
      assert r == [r[0]] + r[1..] && t == [t[0]] + t[1..];
    }
  }

  lemma SameHead<X>(r: seq<X>, t: seq<X>, d: set<X>, cmp: (X, X) -> int)
    requires Preorder(d, cmp) && r != [] && t != []
    requires Sorted(r, cmp) && Sorted(t, cmp) && Within(r, d) && Within(t, d)
    requires forall y | y in d :: Ties(y, r, cmp) == Ties(y, t, cmp)
    ensures r[0] == t[0]
  {
    assert r[0] in d && t[0] in d;
    assert Tie(r[0], r[0], cmp) && Tie(t[0], t[0], cmp);
    var i := TieIndex(r[0], r[0], t, cmp);
    var j := TieIndex(t[0], t[0], r, cmp);
    assert t[i] == r[0] && r[j] == t[0];
    assert Tie(r[0], t[0], cmp);
    assert Ties(r[0], r, cmp)[0] == r[0] && Ties(r[0], t, cmp)[0] == t[0];
  }

  lemma SameTail<X>(y: X, r: seq<X>, t: seq<X>, cmp: (X, X) -> int)
    requires r != [] && t != [] && r[0] == t[0] && Ties(y, r, cmp) == Ties(y, t, cmp)
    ensures Ties(y, r[1..], cmp) == Ties(y, t[1..], cmp)
  {
    var p := if Tie(y, r[0], cmp) then [r[0]] else [];
    assert Ties(y, r[1..], cmp) == Ties(y, r, cmp)[|p|..];
    assert Ties(y, t[1..], cmp) == Ties(y, t, cmp)[|p|..];
  }

  /** Whatever Ties returns occurs in the sequence. */
  lemma {:induction false} TieIndex<X>(x: X, y: X, s: seq<X>, cmp: (X, X) -> int) returns (i: nat)
    requires x in Ties(y, s, cmp)
    ensures i < |s| && s[i] == x
  {
    if Tie(y, s[0], cmp) && s[0] == x {
      i := 0;
    } else {
      var k := TieIndex(x, y, s[1..], cmp);
      i := k + 1;
    }
  }

  // ---------------------------------------------------------------------------------------
  // Merge sort
  // ---------------------------------------------------------------------------------------

  ghost function Merge<X>(a: seq<X>, b: seq<X>, cmp: (X, X) -> int): seq<X>
    decreases |a| + |b|
  {
    if a == [] then b
    else if b == [] then a
    else if cmp(a[0], b[0]) <= 0 then [a[0]] + Merge(a[1..], b, cmp)
    else [b[0]] + Merge(a, b[1..], cmp)
  }

  lemma {:induction false} InsertIntoMerge<X>(x: X, a: seq<X>, b: seq<X>, d: set<X>, cmp: (X, X) -> int)
    requires Preorder(d, cmp) && x in d && Within(a, d) && Within(b, d)
    ensures Insert(x, Merge(a, b, cmp), cmp) == Merge(Insert(x, a, cmp), b, cmp)
    decreases |a| + |b|
  {
    var xa := Insert(x, a, cmp);
    if b == [] {
    } else if a == [] {
      if cmp(x, b[0]) > 0 {
        InsertIntoMerge(x, a, b[1..], d, cmp);
      } else {
        assert xa[1..] == [];
      }
    } else {
      assert a[0] in d && b[0] in d;
      if cmp(a[0], b[0]) <= 0 {
        if cmp(x, a[0]) > 0 {
          InsertIntoMerge(x, a[1..], b, d, cmp);
          assert xa[1..] == Insert(x, a[1..], cmp);
        } else {
          assert xa[1..] == a;
        }
      } else if cmp(x, b[0]) > 0 {
        InsertIntoMerge(x, a, b[1..], d, cmp);
        assert xa[0] == x || xa[0] == a[0];
      } else {
        assert xa == [x] + a && xa[1..] == a;
      }
    }
  }

  /** Merging two sorted halves is sorting the whole: the identity slist_sort rests on. */
  lemma {:induction false} MergeOfSorts<X>(a: seq<X>, b: seq<X>, d: set<X>, cmp: (X, X) -> int)
    requires Preorder(d, cmp) && Within(a, d) && Within(b, d)
    ensures StableSort(a + b, cmp) == Merge(StableSort(a, cmp), StableSort(b, cmp), cmp)
  {
    if a == [] {
      assert a + b == b;
    } else {
      assert (a + b)[1..] == a[1..] + b;
      MergeOfSorts(a[1..], b, d, cmp);
      StableSortWithin(a[1..], d, cmp);
      StableSortWithin(b, d, cmp);
      InsertIntoMerge(a[0], StableSort(a[1..], cmp), StableSort(b, cmp), d, cmp);
    }
  }

  ghost function CeilLog2(n: nat): nat {
    if n <= 1 then 0 else 1 + CeilLog2((n + 1) / 2)
  }

  /** Comparisons in the worst case: both halves, then a merge that compares for all but one node. */
  ghost function SortCost(n: nat): nat {
    if n <= 1 then 0 else SortCost(n / 2) + SortCost(n - n / 2) + n - 1
  }

  ghost function Pow2(k: nat): nat {
    if k == 0 then 1 else 2 * Pow2(k - 1)
  }

  /** CeilLog2(n) is the least k with n <= 2^k. */
  lemma {:induction false} CeilLog2Least(n: nat)
    ensures n <= Pow2(CeilLog2(n))
    ensures forall k: nat | k < CeilLog2(n) :: Pow2(k) < n
  {
    if n > 1 {
      CeilLog2Least((n + 1) / 2);
      forall k: nat | k < CeilLog2(n) ensures Pow2(k) < n {
        if k > 0 {
          assert Pow2(k - 1) < (n + 1) / 2;
        }
      }
    }
  }

  lemma {:induction false} CeilLog2Monotone(m: nat, n: nat)
    requires m <= n
    ensures CeilLog2(m) <= CeilLog2(n)
  {
    if m > 1 {
      CeilLog2Monotone((m + 1) / 2, (n + 1) / 2);
    }
  }

  lemma SortCostStep(x: nat, y: nat)
    requires x >= 1 && y >= 1 && x == (x + y) / 2
    ensures SortCost(x + y) == SortCost(x) + SortCost(y) + x + y - 1
  {
  }

  /** slist_sort calls compare at most n * ceil(log2 n) times. */
  lemma {:induction false} SortCostBound(n: nat)
    ensures SortCost(n) <= n * CeilLog2(n)
  {
    if n > 1 {
      var h, g := n / 2, n - n / 2;
      SortCostBound(h);
      SortCostBound(g);
      CeilLog2Monotone(h, g);
      var c := CeilLog2(g);
      MulMonotone(h, CeilLog2(h), c);
      assert g == (n + 1) / 2;
      CostSum(h, g, c, SortCost(h), SortCost(g));
    }
  }

  lemma CostSum(h: nat, g: nat, c: nat, x: nat, y: nat)
    requires x <= h * c && y <= g * c
    ensures x + y + h + g <= (h + g) * (1 + c)
  {
    Distribute(h, g, c);
    OneMore(h + g, c);
  }

  lemma MulMonotone(h: nat, x: nat, y: nat)
    requires x <= y
    ensures h * x <= h * y
  {
  }

  lemma OneMore(n: nat, c: nat)
    ensures n * (1 + c) == n * c + n
  {
  }

  lemma Distribute(h: nat, g: nat, c: nat)
    ensures h * c + g * c == (h + g) * c
  {
  }

  /** The nodes of p are distinct and each but the last points at the following one. */
  ghost predicate Linked<T(0)>(p: seq<SList<T>>)
    reads p
  {
    && p != [] && Distinct(p)
    && forall i {:trigger p[i].next} | 0 <= i < |p| - 1 :: p[i].next == p[i + 1]
  }

  /** One merge step: link the head of one list behind insert and advance that list. */
  method Take<T(0)>(insert: SList<T>, node: SList<T>, other: SList?<T>,
                    ghost p: seq<SList<T>>, ghost x: seq<SList<T>>, ghost y: seq<SList<T>>,
                    ghost dp: set<SList<T>>, ghost dx: set<SList<T>>, ghost dy: set<SList<T>>)
      returns (insert': SList<T>, rest: SList?<T>)
    requires Linked(p) && insert == p[|p| - 1] && Within(p, dp)
    requires Chain(node, x) && Within(x, dx) && Chain(other, y) && Within(y, dy)
    requires dp !! dx !! dy
    modifies insert
    ensures insert' == node && node in dx && Linked(p + [node]) && Within(p + [node], dp + {node})
    ensures Chain(rest, x[1..]) && Within(x[1..], dx - {node}) && Chain(other, y)
  {
    ChainTail(node, x);
    assert insert in dp && node in dx;
    insert.next := node;
    insert' := node;
    rest := node.next;
  }

  /** Moving the smaller head behind p leaves the whole merge unchanged. */
  lemma MergeStep<X>(p: seq<X>, x: seq<X>, y: seq<X>, cmp: (X, X) -> int)
    requires p != [] && x != [] && y != []
    ensures p[1..] + Merge(x, y, cmp) ==
            if cmp(x[0], y[0]) <= 0 then (p + [x[0]])[1..] + Merge(x[1..], y, cmp)
            else (p + [y[0]])[1..] + Merge(x, y[1..], cmp)
  {
  }

  /** slist_sort_merge; da and db are the node sets of the two lists. */
  method SortMerge<T(0)>(left0: SList?<T>, right0: SList?<T>, cmp: (SList<T>, SList<T>) -> int,
                         ghost a: seq<SList<T>>, ghost b: seq<SList<T>>,
                         ghost da: set<SList<T>>, ghost db: set<SList<T>>)
      returns (r: SList?<T>, ghost calls: nat)
    requires Chain(left0, a) && Within(a, da) && Chain(right0, b) && Within(b, db) && da !! db
    modifies da + db
    ensures Chain(r, Merge(a, b, cmp))
    ensures calls < |a| + |b| || calls == 0
  {
    var left, right := left0, right0;
    var blank: T := *;
    var merged := new SList<T>(blank);
    var insert := merged;
    calls := 0;
    ghost var p: seq<SList<T>>, x, y := [merged], a, b;
    ghost var dp: set<SList<T>>, dx, dy := {merged}, da, db;
    while left != null && right != null
      invariant Linked(p) && Within(p, dp) && p[0] == merged && insert == p[|p| - 1]
      invariant Chain(left, x) && Within(x, dx) && Chain(right, y) && Within(y, dy)
      invariant dp !! dx !! dy && dp <= {merged} + da + db && dx <= da && dy <= db
      invariant Merge(a, b, cmp) == p[1..] + Merge(x, y, cmp)
      invariant calls + |x| + |y| == |a| + |b|
      invariant calls > 0 ==> x != [] || y != []
      decreases |x| + |y|
    {
      calls := calls + 1;
      MergeStep(p, x, y, cmp);
      assert insert in dp;
      if cmp(left, right) <= 0 {
        ghost var node: SList<T> := left;
        insert, left := Take(insert, left, right, p, x, y, dp, dx, dy);
        p, x, dp, dx := p + [node], x[1..], dp + {node}, dx - {node};
      } else {
        ghost var node: SList<T> := right;
        insert, right := Take(insert, right, left, p, y, x, dp, dy, dx);
        p, y, dp, dy := p + [node], y[1..], dp + {node}, dy - {node};
      }
    }
    assert insert in dp;
    if left != null {
      Attach(insert, left, p, x, dp, dx);
    } else {
      Attach(insert, right, p, y, dp, dy);
    }
    r := merged.next;
  }

  /** The last assignment of the merge: the remaining list follows insert. */
  method Attach<T(0)>(insert: SList<T>, node: SList?<T>, ghost p: seq<SList<T>>, ghost rest: seq<SList<T>>,
                      ghost dp: set<SList<T>>, ghost dr: set<SList<T>>)
    requires Linked(p) && insert == p[|p| - 1] && Within(p, dp)
    requires Chain(node, rest) && Within(rest, dr) && dp !! dr
    modifies insert
    ensures Chain(p[0].next, p[1..] + rest)
  {
    assert insert in dp;
    insert.next := node;
    PrefixedChain(p, rest, dp, dr);
  }

  /** A linked prefix whose last node points at a chain, without its first node. */
  lemma PrefixedChain<T(0)>(p: seq<SList<T>>, rest: seq<SList<T>>, dp: set<SList<T>>, dr: set<SList<T>>)
    requires Linked(p) && Within(p, dp) && Within(rest, dr) && dp !! dr
    requires Chain(p[|p| - 1].next, rest)
    ensures Chain(p[0].next, p[1..] + rest)
  {
    var t := p[1..] + rest;
    forall i, j | 0 <= i < j < |t| ensures t[i] != t[j] {
      if i < |p| - 1 <= j {
        assert t[i] == p[i + 1] && t[i] in dp && t[j] in dr;
      }
    }
    assert p[0].next == At(t, 0);
    forall i {:trigger t[i].next} | 0 <= i < |t|
      ensures t[i].next == At(t, i + 1)
    {
      if i < |p| - 1 {
        assert t[i] == p[i + 1];
        if i < |p| - 2 {
          assert p[i + 1].next == p[i + 2];
        }
      } else {
        assert t[i] == rest[i - (|p| - 1)];
        assert rest[i - (|p| - 1)].next == At(rest, i - (|p| - 1) + 1);
      }
    }
  }

  lemma ChainSplit<T(0)>(head: SList?<T>, s: seq<SList<T>>, m: nat)
    requires 0 < m < |s| && Distinct(s) && head == s[0]
    requires forall i {:trigger s[i].next} | 0 <= i < |s| && i != m - 1 :: s[i].next == At(s, i + 1)
    requires s[m - 1].next == null
    ensures Chain(head, s[..m]) && Chain(s[m], s[m..])
  {
    var a, b := s[..m], s[m..];
    forall i {:trigger a[i].next} | 0 <= i < |a| ensures a[i].next == At(a, i + 1) {
      assert a[i] == s[i];
      assert i != m - 1 ==> s[i].next == At(s, i + 1);
    }
    forall i {:trigger b[i].next} | 0 <= i < |b| ensures b[i].next == At(b, i + 1) {
      assert b[i] == s[m + i];
      assert s[m + i].next == At(s, m + i + 1);
    }
  }

  /** The middle of the list: slist moves one node for every two of right. */
  method Middle<T(0)>(slist0: SList<T>, ghost s: seq<SList<T>>) returns (slist: SList<T>)
    requires Chain(slist0, s) && |s| >= 2
    ensures slist == s[|s| / 2 - 1]
  {
    slist := slist0;
    assert s[0].next == At(s, 1);
    var right := slist.next;
    ghost var k := 0;
    while right != null
      invariant 2 * k + 1 < |s| && slist == s[k] && right == s[2 * k + 1]
      decreases |s| - k
    {
      assert s[2 * k + 1].next == At(s, 2 * k + 2);
      right := right.next;
      if right == null {
        break;
      }
      assert s[2 * k + 2].next == At(s, 2 * k + 3);
      right := right.next;
      if right == null {
        break;
      }
      assert s[k].next == At(s, k + 1);
      slist := slist.next;
      k := k + 1;
    }
  }

  /** Cut the list after its middle; left stays at the old head. */
  method Halve<T(0)>(slist0: SList<T>, ghost s: seq<SList<T>>, ghost a: seq<SList<T>>, ghost b: seq<SList<T>>)
      returns (right: SList?<T>)
    requires Chain(slist0, s) && |s| >= 2 && a == s[..|s| / 2] && b == s[|s| / 2..]
    modifies s[|s| / 2 - 1]
    ensures Chain(slist0, a) && Chain(right, b)
  {
    ghost var m := |s| / 2;
    var slist := Middle(slist0, s);
    assert s[m - 1].next == At(s, m);
    right := slist.next;
    slist.next := null;
    forall i {:trigger s[i].next} | 0 <= i < |s| && i != m - 1
      ensures s[i].next == At(s, i + 1)
    {
      assert s[i] != s[m - 1];
      assert old(s[i].next) == At(s, i + 1);
    }
    ChainSplit(slist0, s, m);
  }

  /** slist_sort: the list comes back as its own nodes in stable sorted order. */
  method Sort<T(0)>(slist: SList?<T>, cmp: (SList<T>, SList<T>) -> int, ghost s: seq<SList<T>>, ghost d: set<SList<T>>)
      returns (r: SList?<T>, ghost calls: nat)
    requires Chain(slist, s) && Within(s, d) && Preorder(d, cmp)
    modifies d
    ensures Chain(r, StableSort(s, cmp))
    ensures calls <= SortCost(|s|)
    decreases |s|, 1
  {
    if slist == null {
      return slist, 0;
    }
    assert s[0].next == At(s, 1);
    if slist.next == null {
      SortOne(s, cmp);
      return slist, 0;
    }
    ghost var a, b, da, db := Halves(s, d, cmp);
    r, calls := SortLong(slist, cmp, s, d, a, b, da, db);
  }

  lemma SortOne<X>(s: seq<X>, cmp: (X, X) -> int)
    requires |s| == 1
    ensures StableSort(s, cmp) == s
  {
    assert s == [s[0]];
  }

  /** The rest of slist_sort, for two nodes and more. */
  method SortLong<T(0)>(slist: SList<T>, cmp: (SList<T>, SList<T>) -> int, ghost s: seq<SList<T>>,
                    ghost d: set<SList<T>>,
                        ghost a: seq<SList<T>>, ghost b: seq<SList<T>>,
                        ghost da: set<SList<T>>, ghost db: set<SList<T>>)
      returns (r: SList?<T>, ghost calls: nat)
    requires Chain(slist, s) && |s| >= 2 && s[|s| / 2 - 1] in d && a == s[..|s| / 2] && b == s[|s| / 2..]
    requires Within(a, da) && Within(b, db) && da !! db && da + db <= d
    requires Preorder(da, cmp) && Preorder(db, cmp)
    modifies d
    ensures Chain(r, Merge(StableSort(a, cmp), StableSort(b, cmp), cmp))
    ensures calls <= SortCost(|s|)
    decreases |s|, 0, 2
  {
    var right := Halve(slist, s, a, b);
    r, calls := SortHalves(slist, right, cmp, a, b, da, db);
  }

  /** The two halves live in disjoint parts of d, and sorting them and merging sorts s. */
  lemma Halves<X>(s: seq<X>, d: set<X>, cmp: (X, X) -> int) returns (a: seq<X>, b: seq<X>, da: set<X>, db: set<X>)
    requires Distinct(s) && Within(s, d) && Preorder(d, cmp)
    ensures a == s[..|s| / 2] && b == s[|s| / 2..]
    ensures da !! db && da + db <= d && Within(a, da) && Within(b, db)
    ensures Preorder(da, cmp) && Preorder(db, cmp)
    ensures |s| >= 2 ==> s[|s| / 2 - 1] in d && |a| >= 1 && |b| >= 1
    ensures |a| + |b| == |s| && |a| == (|a| + |b|) / 2
    ensures Merge(StableSort(a, cmp), StableSort(b, cmp), cmp) == StableSort(s, cmp)
  {
    a, b := s[..|s| / 2], s[|s| / 2..];
    da, db := HalvesApart(s, |s| / 2, d);
    assert s == a + b;
    MergeOfSorts(a, b, d, cmp);
  }

  lemma HalvesApart<X>(s: seq<X>, m: nat, d: set<X>) returns (da: set<X>, db: set<X>)
    requires m <= |s| && Distinct(s) && Within(s, d)
    ensures da !! db && da <= d && db <= d && Within(s[..m], da) && Within(s[m..], db)
    ensures Within(s[..m], d) && Within(s[m..], d)
  {
    da := set i | 0 <= i < m :: s[i];
    db := set i | m <= i < |s| :: s[i];
  }

  /** The nested call at the end of slist_sort: sort left, sort right, merge. */
  method SortHalves<T(0)>(left0: SList?<T>, right0: SList?<T>, cmp: (SList<T>, SList<T>) -> int,
                          ghost a: seq<SList<T>>, ghost b: seq<SList<T>>,
                          ghost da: set<SList<T>>, ghost db: set<SList<T>>)
      returns (r: SList?<T>, ghost calls: nat)
    requires |a| >= 1 && |b| >= 1 && |a| == (|a| + |b|) / 2
    requires Chain(left0, a) && Within(a, da) && Chain(right0, b) && Within(b, db) && da !! db
    requires Preorder(da, cmp) && Preorder(db, cmp)
    modifies da + db
    ensures Chain(r, Merge(StableSort(a, cmp), StableSort(b, cmp), cmp))
    ensures calls <= SortCost(|a| + |b|)
    decreases |a| + |b|, 0, 1
  {
    ghost var p, q, sa, sb;
    var left, right;
    left, right, p, q, sa, sb := SortEach(left0, right0, cmp, a, b, da, db);
    r, calls := MergeHalves(left, right, cmp, sa, sb, da, db, p, q);
  }

  method MergeHalves<T(0)>(left: SList?<T>, right: SList?<T>, cmp: (SList<T>, SList<T>) -> int,
                           ghost a: seq<SList<T>>, ghost b: seq<SList<T>>,
                           ghost da: set<SList<T>>, ghost db: set<SList<T>>, ghost p: nat, ghost q: nat)
      returns (r: SList?<T>, ghost calls: nat)
    requires |a| >= 1 && |b| >= 1 && |a| == (|a| + |b|) / 2
    requires Chain(left, a) && Within(a, da) && Chain(right, b) && Within(b, db) && da !! db
    requires p <= SortCost(|a|) && q <= SortCost(|b|)
    modifies da + db
    ensures Chain(r, Merge(a, b, cmp)) && calls <= SortCost(|a| + |b|)
  {
    r, calls := SortMerge(left, right, cmp, a, b, da, db);
    HalvesCost(|a|, |b|, calls, p, q);
    calls := calls + p + q;
  }

  lemma HalvesCost(x: nat, y: nat, m: nat, p: nat, q: nat)
    requires x >= 1 && y >= 1 && x == (x + y) / 2
    requires m <= x + y - 1 && p <= SortCost(x) && q <= SortCost(y)
    ensures m + p + q <= SortCost(x + y)
  {
    SortCostStep(x, y);
  }

  method SortEach<T(0)>(left0: SList?<T>, right0: SList?<T>, cmp: (SList<T>, SList<T>) -> int,
                        ghost a: seq<SList<T>>, ghost b: seq<SList<T>>,
                        ghost da: set<SList<T>>, ghost db: set<SList<T>>)
      returns (left: SList?<T>, right: SList?<T>, ghost p: nat, ghost q: nat,
               ghost sa: seq<SList<T>>, ghost sb: seq<SList<T>>)
    requires |a| >= 1 && |b| >= 1
    requires Chain(left0, a) && Within(a, da) && Chain(right0, b) && Within(b, db) && da !! db
    requires Preorder(da, cmp) && Preorder(db, cmp)
    modifies da + db
    ensures sa == StableSort(a, cmp) && |sa| == |a| && Chain(left, sa) && Within(sa, da)
    ensures sb == StableSort(b, cmp) && |sb| == |b| && Chain(right, sb) && Within(sb, db)
    ensures p <= SortCost(|a|) && q <= SortCost(|b|)
    decreases |a| + |b|, 0, 0
  {
    sa, sb := StableSort(a, cmp), StableSort(b, cmp);
    StableSortLength(a, cmp);
    StableSortLength(b, cmp);
    StableSortWithin(a, da, cmp);
    StableSortWithin(b, db, cmp);
    left, p := Sort(left0, cmp, a, da);
    right, q := Sort(right0, cmp, b, db);
  }

  lemma StableSortLength<X>(s: seq<X>, cmp: (X, X) -> int)
    ensures |StableSort(s, cmp)| == |s|
  {
    StableSortPermutes(s, cmp);
    SameElems(StableSort(s, cmp), s);
  }
}
