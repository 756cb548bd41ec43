/**
 Runs of the module table: any sequence of opens, closings, residency changes and loader changes
 before the final shutdown, with clients that never close a handle more often than they opened it.
 */
module ModuleRuns {
  import opened Basics
  import opened SLists
  import opened ModuleTable

  datatype Event =
    | Opening(filename: Option<string>, vtable: Vtable?, opens: Vtable -> bool, resident: bool, handle: Handle)
    | Closing(handle: Handle)
    | MakingResident(handle: Handle)
    | AddingLoader(item: Loader)
    | RemovingLoader(name: string, exitFails: Vtable -> bool)

  /**
   The two lists, the modules closed so far, and the history that the claims are about: how often
   each handle was handed out and closed, and which loaders put in front or behind are left.
   */
  datatype Table = Table(
    rows: seq<Row>, ls: seq<Loader>, closed: seq<Handle>,
    openings: multiset<Handle>, closings: multiset<Handle>,
    front: seq<Loader>, back: seq<Loader>)

  ghost const START := Table([], [], [], multiset{}, multiset{}, [], [])

  ghost function Without<X>(s: seq<X>, x: X): seq<X> {
    if s == [] then [] else (if s[0] == x then [] else [s[0]]) + Without(s[1..], x)
  }

  ghost function Open(t: Table, e: Event): Table
    requires e.Opening?
  {
    var k := FirstMatch(t.rows, Named(e.filename));
    if k < |t.rows| then
      t.(rows := Referenced(t.rows, k), openings := t.openings + multiset{t.rows[k].handle})
    else if Serving(t.ls, e.vtable, e.opens) == null then t
    else t.(rows := [Row(e.handle, 1, e.resident)] + t.rows, openings := t.openings + multiset{e.handle})
  }

  ghost function Close(t: Table, h: Handle): Table {
    var k := FirstMatch(t.rows, Holds(h));
    if k == |t.rows| then t
    else t.(rows := ClosedRows(t.rows, h),
            closed := t.closed + (if Dropped(t.rows, h) then [h] else []),
            closings := t.closings + multiset{h})
  }

  ghost function MakeResident(t: Table, h: Handle): Table {
    t.(rows := ResidentRows(t.rows, h))
  }

  ghost function AddLoader(t: Table, item: Loader): Table
    requires item.userdata != null
  {
    if item.userdata.prepend then t.(ls := [item] + t.ls, front := t.front + [item])
    else t.(ls := t.ls + [item], back := t.back + [item])
  }

  ghost function RemoveLoader(t: Table, name: string, exitFails: Vtable -> bool): Table {
    var k := FirstMatch(t.ls, LoaderNamed(name));
    if RemovedVtable(t.ls, t.rows, name, exitFails) == null || k == |t.ls| then t
    else t.(ls := RemoveAt(t.ls, k), front := Without(t.front, t.ls[k]), back := Without(t.back, t.ls[k]))
  }

  ghost function Step(t: Table, e: Event): Table
    requires Permitted(t, e)
  {
    match e
    case Opening(_, _, _, _, _) => Open(t, e)
    case Closing(h) => Close(t, h)
    case MakingResident(h) => MakeResident(t, h)
    case AddingLoader(item) => AddLoader(t, item)
    case RemovingLoader(name, exitFails) => RemoveLoader(t, name, exitFails)
  }

  /** The open has to ask the loaders, and one of them opens the file. */
  ghost predicate Loads(t: Table, filename: Option<string>, vtable: Vtable?, opens: Vtable -> bool) {
    FirstMatch(t.rows, Named(filename)) == |t.rows| && Serving(t.ls, vtable, opens) != null
  }

  /** New handles and loaders are new; a handle in the table is closed only while it has an open. */
  ghost predicate Permitted(t: Table, e: Event) {
    match e
    case Opening(filename, vtable, opens, _, handle) =>
      && (vtable != null ==> Provides(t.ls, vtable))
      && (Loads(t, filename, vtable, opens) ==>
            && t.openings[handle] == 0 && t.closings[handle] == 0
            && handle.filename == filename && handle.vtable == Serving(t.ls, vtable, opens))
    case Closing(h) =>
      FirstMatch(t.rows, Holds(h)) < |t.rows| ==> t.openings[h] > t.closings[h]
    case AddingLoader(item) => item !in t.ls && item.userdata != null
    case _ => true
  }

  /** The open asks an empty loader list; the table then stays as it is. */
  ghost predicate Crashes(t: Table, e: Event) {
    e.Opening? && FirstMatch(t.rows, Named(e.filename)) == |t.rows| && e.vtable == null && t.ls == []
  }

  ghost predicate Provides(ls: seq<Loader>, v: Vtable) {
    exists j :: 0 <= j < |ls| && ls[j].userdata == v
  }

  // ---------------------------------------------------------------------------------------
  // What every run keeps
  // ---------------------------------------------------------------------------------------

  /** One handle per file, and no handle twice. */
  ghost predicate OnePerFile(rows: seq<Row>) {
    forall i, j | 0 <= i < j < |rows| ::
      rows[i].handle != rows[j].handle && rows[i].handle.filename != rows[j].handle.filename
  }

  /** The reference count is opens minus closes, and positive unless the handle is resident. */
  ghost predicate RowCounted(r: Row, openings: multiset<Handle>, closings: multiset<Handle>) {
    && r.refCount + closings[r.handle] == openings[r.handle] && openings[r.handle] > 0
    && r.refCount >= if r.resident then 0 else 1
  }

  ghost predicate Counted(t: Table) {
    forall i | 0 <= i < |t.rows| :: RowCounted(t.rows[i], t.openings, t.closings)
  }

  ghost predicate Listed(rows: seq<Row>, h: Handle) {
    exists i :: 0 <= i < |rows| && rows[i].handle == h
  }

  /** module_close has been called, once, exactly for the handles that were opened and are gone. */
  ghost predicate ClosedOnce(t: Table) {
    && Distinct(t.closed)
    && (forall i | 0 <= i < |t.closed| ::
          !Listed(t.rows, t.closed[i]) && t.openings[t.closed[i]] == t.closings[t.closed[i]] > 0)
    && (forall h | h in t.openings :: h !in t.closed ==> Listed(t.rows, h))
    && (forall h | h in t.closings :: h in t.openings)
  }

  ghost predicate LoadersKept(t: Table) {
    forall i | 0 <= i < |t.rows| :: Provides(t.ls, t.rows[i].handle.vtable)
  }

  ghost predicate LoaderOrder(t: Table) {
    Distinct(t.ls) && t.ls == Reversed(t.front) + t.back
  }

  ghost predicate Inv(t: Table) {
    OnePerFile(t.rows) && Counted(t) && ClosedOnce(t) && LoadersKept(t) && LoaderOrder(t)
  }

  lemma ReferencedKeeps(t: Table, k: nat)
    requires Inv(t) && k < |t.rows|
    ensures Inv(t.(rows := Referenced(t.rows, k), openings := t.openings + multiset{t.rows[k].handle}))
  {
    var h := t.rows[k].handle;
    var u := t.(rows := Referenced(t.rows, k), openings := t.openings + multiset{h});
    assert RowCounted(t.rows[k], t.openings, t.closings) && Listed(t.rows, h);
    SameHandles(t.rows, u.rows);
    ReferencedCounted(t, u, k);
    MoreOpenings(t, u, h);
    SameVtables(t, u);
  }

  lemma ReferencedCounted(t: Table, u: Table, k: nat)
    requires OnePerFile(t.rows) && Counted(t) && k < |t.rows|
    requires u.rows == Referenced(t.rows, k) && u.closings == t.closings
    requires u.openings == t.openings + multiset{t.rows[k].handle}
    ensures Counted(u)
  {
    forall i | 0 <= i < |u.rows| ensures RowCounted(u.rows[i], u.openings, u.closings) {
      assert RowCounted(t.rows[i], t.openings, t.closings);
      assert i != k ==> t.rows[i].handle != t.rows[k].handle;
    }
  }

  /** One more opening of a handle that is in the new table. */
  lemma MoreOpenings(t: Table, u: Table, h: Handle)
    requires ClosedOnce(t) && u.closed == t.closed && u.closings == t.closings
    requires u.openings == t.openings + multiset{h} && Listed(u.rows, h) && h !in t.closed
    requires forall x :: Listed(u.rows, x) <==> x == h || Listed(t.rows, x)
    ensures ClosedOnce(u)
  {
    forall i | 0 <= i < |u.closed|
      ensures !Listed(u.rows, u.closed[i]) && u.openings[u.closed[i]] == u.closings[u.closed[i]] > 0
    {
      assert t.closed[i] in t.closed;
      assert !Listed(t.rows, t.closed[i]);
    }
    forall x | x in u.openings && x !in u.closed ensures Listed(u.rows, x) {
      assert x == h || x in t.openings;
    }
  }

  lemma SameVtables(t: Table, u: Table)
    requires LoadersKept(t) && u.ls == t.ls && |u.rows| == |t.rows|
    requires forall i | 0 <= i < |t.rows| :: t.rows[i].handle == u.rows[i].handle
    ensures LoadersKept(u)
  {
  }

  lemma SameHandles(a: seq<Row>, b: seq<Row>)
    requires |a| == |b| && forall i | 0 <= i < |a| :: a[i].handle == b[i].handle
    ensures forall h :: Listed(a, h) <==> Listed(b, h)
    ensures OnePerFile(a) <==> OnePerFile(b)
  {
  }

  lemma OpenedKeeps(t: Table, r: Row)
    requires Inv(t) && r.refCount == 1 && t.openings[r.handle] == 0 && t.closings[r.handle] == 0
    requires forall i | 0 <= i < |t.rows| :: t.rows[i].handle.filename != r.handle.filename
    requires Provides(t.ls, r.handle.vtable)
    ensures Inv(t.(rows := [r] + t.rows, openings := t.openings + multiset{r.handle}))
  {
    var h := r.handle;
    var u := t.(rows := [r] + t.rows, openings := t.openings + multiset{h});
    ListedCons(r, t.rows);
    OpenedCounted(t, u, r);
    assert h !in t.closed by {
      forall i | 0 <= i < |t.closed| ensures t.closed[i] != h { }
    }
    assert u.rows[0].handle == h;
    MoreOpenings(t, u, h);
    forall i | 0 <= i < |u.rows| ensures Provides(u.ls, u.rows[i].handle.vtable) {
      if i > 0 {
        assert u.rows[i] == t.rows[i - 1];
      }
    }
  }

  lemma OpenedCounted(t: Table, u: Table, r: Row)
    requires OnePerFile(t.rows) && Counted(t) && r.refCount == 1
    requires t.openings[r.handle] == 0 && t.closings[r.handle] == 0
    requires forall i | 0 <= i < |t.rows| :: t.rows[i].handle.filename != r.handle.filename
    requires u.rows == [r] + t.rows && u.openings == t.openings + multiset{r.handle} && u.closings == t.closings
    ensures OnePerFile(u.rows) && Counted(u)
  {
    forall i | 0 < i < |u.rows|
      ensures RowCounted(u.rows[i], u.openings, u.closings)
      ensures u.rows[i].handle != r.handle && u.rows[i].handle.filename != r.handle.filename
    {
      assert u.rows[i] == t.rows[i - 1] && RowCounted(t.rows[i - 1], t.openings, t.closings);
    }
    forall i, j | 0 < i < j < |u.rows|
      ensures u.rows[i].handle != u.rows[j].handle && u.rows[i].handle.filename != u.rows[j].handle.filename
    {
      assert u.rows[i] == t.rows[i - 1] && u.rows[j] == t.rows[j - 1];
    }
  }

  lemma ListedCons(r: Row, rows: seq<Row>)
    ensures forall h :: Listed([r] + rows, h) <==> h == r.handle || Listed(rows, h)
  {
    var s := [r] + rows;
    forall h ensures Listed(s, h) <==> h == r.handle || Listed(rows, h) {
      if Listed(rows, h) {
        var i :| 0 <= i < |rows| && rows[i].handle == h;
        assert s[i + 1].handle == h;
      }
      if h == r.handle {
        assert s[0].handle == h;
      }
    }
  }

  lemma ServingProvides(ls: seq<Loader>, vtable: Vtable?, opens: Vtable -> bool)
    requires vtable != null ==> Provides(ls, vtable)
    requires Serving(ls, vtable, opens) != null
    ensures Provides(ls, Serving(ls, vtable, opens))
  {
  }

  lemma OpenKeeps(t: Table, e: Event)
    requires Inv(t) && e.Opening? && Permitted(t, e)
    ensures Inv(Open(t, e))
  {
    var k := FirstMatch(t.rows, Named(e.filename));
    if k < |t.rows| {
      ReferencedKeeps(t, k);
    } else if Serving(t.ls, e.vtable, e.opens) != null {
      ServingProvides(t.ls, e.vtable, e.opens);
      assert forall i | 0 <= i < |t.rows| :: !Named(e.filename)(t.rows[i]);
      OpenedKeeps(t, Row(e.handle, 1, e.resident));
    }
  }

  lemma ListedWithout(rows: seq<Row>, k: nat)
    requires k < |rows| && OnePerFile(rows)
    ensures OnePerFile(RemoveAt(rows, k))
    ensures forall h :: Listed(RemoveAt(rows, k), h) <==> h != rows[k].handle && Listed(rows, h)
  {
    var s := RemoveAt(rows, k);
    assert forall i | 0 <= i < |s| :: s[i] == rows[if i < k then i else i + 1];
    forall h | Listed(rows, h) && h != rows[k].handle ensures Listed(s, h) {
      var i :| 0 <= i < |rows| && rows[i].handle == h;
      assert s[if i < k then i else i - 1].handle == h;
    }
  }

  lemma DropKeeps(t: Table, k: nat)
    requires Inv(t) && k < |t.rows| && t.rows[k].refCount == 1
    ensures var h := t.rows[k].handle;
            Inv(t.(rows := RemoveAt(t.rows, k), closed := t.closed + [h], closings := t.closings + multiset{h}))
  {
    var h := t.rows[k].handle;
    var u := t.(rows := RemoveAt(t.rows, k), closed := t.closed + [h], closings := t.closings + multiset{h});
    assert RowCounted(t.rows[k], t.openings, t.closings) && Listed(t.rows, h);
    ListedWithout(t.rows, k);
    DropCounted(t, u, k);
    DropClosed(t, u, h);
    forall i | 0 <= i < |u.rows| ensures Provides(u.ls, u.rows[i].handle.vtable) {
      assert u.rows[i] == t.rows[if i < k then i else i + 1];
    }
  }

  lemma DropCounted(t: Table, u: Table, k: nat)
    requires OnePerFile(t.rows) && Counted(t) && k < |t.rows|
    requires u.rows == RemoveAt(t.rows, k) && u.openings == t.openings
    requires u.closings == t.closings + multiset{t.rows[k].handle}
    ensures Counted(u)
  {
    forall i | 0 <= i < |u.rows| ensures RowCounted(u.rows[i], u.openings, u.closings) {
      var j := if i < k then i else i + 1;
      assert u.rows[i] == t.rows[j] && t.rows[j].handle != t.rows[k].handle;
      assert RowCounted(t.rows[j], t.openings, t.closings);
    }
  }

  lemma DropClosed(t: Table, u: Table, h: Handle)
    requires ClosedOnce(t) && u.closed == t.closed + [h] && u.openings == t.openings
    requires u.closings == t.closings + multiset{h} && Listed(t.rows, h)
    requires t.openings[h] == t.closings[h] + 1
    requires forall x :: Listed(u.rows, x) <==> x != h && Listed(t.rows, x)
    ensures ClosedOnce(u)
  {
    forall i | 0 <= i < |u.closed|
      ensures !Listed(u.rows, u.closed[i]) && u.openings[u.closed[i]] == u.closings[u.closed[i]] > 0
    {
      assert i < |t.closed| ==> u.closed[i] == t.closed[i] && !Listed(t.rows, t.closed[i]);
    }
    NotClosed(t, h);
    forall x | x in u.openings && x !in u.closed ensures Listed(u.rows, x) {
      assert x != h && x !in t.closed by { ClosedSnoc(t.closed, h, x); }
    }
  }

  lemma NotClosed(t: Table, h: Handle)
    requires ClosedOnce(t) && Listed(t.rows, h)
    ensures Distinct(t.closed + [h])
  {
    forall i | 0 <= i < |t.closed| ensures t.closed[i] != h {
      assert !Listed(t.rows, t.closed[i]);
    }
  }

  lemma ClosedSnoc<X>(s: seq<X>, x: X, y: X)
    ensures y in s + [x] <==> y in s || y == x
  {
  }

  lemma ReleaseKeeps(t: Table, k: nat)
    requires Inv(t) && k < |t.rows| && t.openings[t.rows[k].handle] > t.closings[t.rows[k].handle]
    requires t.rows[k].refCount > 1 || t.rows[k].resident
    ensures var r := t.rows[k];
            Inv(t.(rows := t.rows[k := r.(refCount := r.refCount - 1)], closings := t.closings + multiset{r.handle}))
  {
    var r := t.rows[k];
    var u := t.(rows := t.rows[k := r.(refCount := r.refCount - 1)], closings := t.closings + multiset{r.handle});
    assert RowCounted(r, t.openings, t.closings) && Listed(t.rows, r.handle);
    SameHandles(t.rows, u.rows);
    ReleaseCounted(t, u, k);
    MoreClosings(t, u, r.handle);
    SameVtables(t, u);
  }

  lemma ReleaseCounted(t: Table, u: Table, k: nat)
    requires OnePerFile(t.rows) && Counted(t) && k < |t.rows|
    requires t.openings[t.rows[k].handle] > t.closings[t.rows[k].handle]
    requires t.rows[k].refCount > 1 || t.rows[k].resident
    requires u.rows == t.rows[k := t.rows[k].(refCount := t.rows[k].refCount - 1)]
    requires u.openings == t.openings && u.closings == t.closings + multiset{t.rows[k].handle}
    ensures Counted(u)
  {
    forall i | 0 <= i < |u.rows| ensures RowCounted(u.rows[i], u.openings, u.closings) {
      assert RowCounted(t.rows[i], t.openings, t.closings);
      assert i != k ==> t.rows[i].handle != t.rows[k].handle;
    }
  }

  lemma MoreClosings(t: Table, u: Table, h: Handle)
    requires ClosedOnce(t) && u.closed == t.closed && u.openings == t.openings
    requires u.closings == t.closings + multiset{h} && Listed(t.rows, h) && h in t.openings
    requires forall x :: Listed(u.rows, x) <==> Listed(t.rows, x)
    ensures ClosedOnce(u)
  {
    forall i | 0 <= i < |u.closed|
      ensures !Listed(u.rows, u.closed[i]) && u.openings[u.closed[i]] == u.closings[u.closed[i]] > 0
    {
      assert !Listed(t.rows, t.closed[i]);
    }
  }

  /** What a close is for a handle in the table. */
  lemma CloseIs(t: Table, h: Handle)
    requires FirstMatch(t.rows, Holds(h)) < |t.rows|
    requires RowCounted(t.rows[FirstMatch(t.rows, Holds(h))], t.openings, t.closings)
    ensures t.rows[FirstMatch(t.rows, Holds(h))].handle == h
    ensures var k := FirstMatch(t.rows, Holds(h)); var r := t.rows[k];
            if Dropped(t.rows, h)
            then r.refCount == 1 &&
                 Close(t, h) == t.(rows := RemoveAt(t.rows, k), closed := t.closed + [h],
                                   closings := t.closings + multiset{h})
            else (r.refCount > 1 || r.resident) &&
                 Close(t, h) == t.(rows := t.rows[k := r.(refCount := r.refCount - 1)],
                                   closings := t.closings + multiset{h})
  {
    assert t.closed + [] == t.closed;
  }

  lemma CloseKeeps(t: Table, h: Handle)
    requires Inv(t) && Permitted(t, Closing(h))
    ensures Inv(Close(t, h))
  {
    var k := FirstMatch(t.rows, Holds(h));
    if k < |t.rows| {
      assert RowCounted(t.rows[k], t.openings, t.closings);
      CloseIs(t, h);
      if Dropped(t.rows, h) {
        DropKeeps(t, k);
      } else {
        ReleaseKeeps(t, k);
      }
    }
  }

  lemma MakeResidentKeeps(t: Table, h: Handle)
    requires Inv(t)
    ensures Inv(MakeResident(t, h))
  {
    var k := FirstMatch(t.rows, Holds(h));
    if k < |t.rows| {
      var u := MakeResident(t, h);
      forall i | 0 <= i < |u.rows| ensures RowCounted(u.rows[i], u.openings, u.closings) {
        assert RowCounted(t.rows[i], t.openings, t.closings);
      }
      SameHandles(t.rows, u.rows);
      SameVtables(t, u);
    }
  }

  lemma AddLoaderKeeps(t: Table, item: Loader)
    requires Inv(t) && Permitted(t, AddingLoader(item))
    ensures Inv(AddLoader(t, item))
  {
    var u := AddLoader(t, item);
    AddLoaderOrder(t, item);
    forall i | 0 <= i < |t.rows| ensures Provides(u.ls, t.rows[i].handle.vtable) {
      var v := t.rows[i].handle.vtable;
      var j :| 0 <= j < |t.ls| && t.ls[j].userdata == v;
      assert u.ls[if item.userdata.prepend then j + 1 else j].userdata == v;
    }
  }

  lemma AddLoaderOrder(t: Table, item: Loader)
    requires LoaderOrder(t) && item !in t.ls && item.userdata != null
    ensures LoaderOrder(AddLoader(t, item))
  {
    if item.userdata.prepend {
      ReversedSnoc(t.front, item);
      assert [item] + (Reversed(t.front) + t.back) == ([item] + Reversed(t.front)) + t.back;
    } else {
      assert (Reversed(t.front) + t.back) + [item] == Reversed(t.front) + (t.back + [item]);
    }
  }

  lemma ReversedSnoc<X>(s: seq<X>, x: X)
    ensures Reversed(s + [x]) == [x] + Reversed(s)
  {
  }

  lemma {:induction false} WithoutConcat<X>(a: seq<X>, b: seq<X>, x: X)
    ensures Without(a + b, x) == Without(a, x) + Without(b, x)
  {
    if a == [] {
      assert a + b == b;
    } else {
      assert (a + b)[1..] == a[1..] + b;
      WithoutConcat(a[1..], b, x);
    }
  }

  lemma {:induction false} WithoutReversed<X>(s: seq<X>, x: X)
    ensures Without(Reversed(s), x) == Reversed(Without(s, x))
  {
    if s != [] {
      var t, y := s[1..], s[0];
      assert Reversed(s) == Reversed(t) + [y];
      WithoutConcat(Reversed(t), [y], x);
      WithoutReversed(t, x);
      assert [y][1..] == [];
      if y != x {
        assert Reversed([y] + Without(t, x)) == Reversed(Without(t, x)) + [y];
      }
    }
  }

  lemma {:induction false} WithoutAbsent<X>(s: seq<X>, x: X)
    requires x !in s
    ensures Without(s, x) == s
  {
    if s != [] {
      assert s[0] in s && forall y | y in s[1..] :: y in s;
      WithoutAbsent(s[1..], x);
      assert s == [s[0]] + s[1..];
    }
  }

  lemma WithoutMiddle<X>(a: seq<X>, x: X, b: seq<X>)
    requires x !in a && x !in b
    ensures Without(a + ([x] + b), x) == a + b
  {
    WithoutConcat(a, [x] + b, x);
    WithoutAbsent(a, x);
    WithoutCons(x, b);
    WithoutAbsent(b, x);
  }

  lemma DistinctAt<X>(s: seq<X>, k: nat)
    requires Distinct(s) && k < |s|
    ensures s[k] !in s[..k] && s[k] !in s[k + 1..]
    ensures s[..k] + ([s[k]] + s[k + 1..]) == s
  {
  }

  lemma RemoveAtIsWithout<X>(s: seq<X>, k: nat)
    requires Distinct(s) && k < |s|
    ensures RemoveAt(s, k) == Without(s, s[k])
  {
    DistinctAt(s, k);
    WithoutMiddle(s[..k], s[k], s[k + 1..]);
  }

  lemma WithoutCons<X>(x: X, s: seq<X>)
    ensures Without([x] + s, x) == Without(s, x)
  {
    assert ([x] + s)[1..] == s;
  }

  lemma RemoveLoaderOrder(t: Table, k: nat)
    requires LoaderOrder(t) && k < |t.ls|
    ensures Distinct(RemoveAt(t.ls, k))
    ensures RemoveAt(t.ls, k) == Reversed(Without(t.front, t.ls[k])) + Without(t.back, t.ls[k])
  {
    RemoveAtIsWithout(t.ls, k);
    WithoutConcat(Reversed(t.front), t.back, t.ls[k]);
    WithoutReversed(t.front, t.ls[k]);
  }

  lemma ProvidesWithout(ls: seq<Loader>, k: nat, v: Vtable)
    requires k < |ls| && Provides(ls, v) && ls[k].userdata != v
    ensures Provides(RemoveAt(ls, k), v)
  {
    var j :| 0 <= j < |ls| && ls[j].userdata == v;
    assert RemoveAt(ls, k)[if j < k then j else j - 1].userdata == v;
  }

  lemma RemoveLoaderKeeps(t: Table, name: string, exitFails: Vtable -> bool)
    requires Inv(t)
    ensures Inv(RemoveLoader(t, name, exitFails))
  {
    var k := FirstMatch(t.ls, LoaderNamed(name));
    if RemovedVtable(t.ls, t.rows, name, exitFails) != null && k < |t.ls| {
      RemoveLoaderOrder(t, k);
      forall i | 0 <= i < |t.rows| ensures Provides(RemoveAt(t.ls, k), t.rows[i].handle.vtable) {
        ProvidesWithout(t.ls, k, t.rows[i].handle.vtable);
      }
    }
  }

  lemma StepKeeps(t: Table, e: Event)
    requires Inv(t) && Permitted(t, e)
    ensures Inv(Step(t, e))
  {
    match e
    case Opening(_, _, _, _, _) => OpenKeeps(t, e);
    case Closing(h) => CloseKeeps(t, h);
    case MakingResident(h) => MakeResidentKeeps(t, h);
    case AddingLoader(item) => AddLoaderKeeps(t, item);
    case RemovingLoader(name, exitFails) => RemoveLoaderKeeps(t, name, exitFails);
  }

  ghost predicate AllPermitted(t: Table, es: seq<Event>)
    decreases es
  {
    es != [] ==> Permitted(t, es[0]) && AllPermitted(Step(t, es[0]), es[1..])
  }

  ghost function Run(t: Table, es: seq<Event>): Table
    requires AllPermitted(t, es)
    decreases es
  {
    if es == [] then t else Run(Step(t, es[0]), es[1..])
  }

  /** Every run: one handle per file, exact counts, each module closed once, loaders in use kept. */
  lemma {:induction false} RunKeeps(t: Table, es: seq<Event>)
    requires Inv(t) && AllPermitted(t, es)
    ensures Inv(Run(t, es))
    decreases es
  {
    if es != [] {
      StepKeeps(t, es[0]);
      RunKeeps(Step(t, es[0]), es[1..]);
    }
  }

  lemma StartInv()
    ensures Inv(START)
  {
    assert Reversed<Loader>([]) + [] == [];
  }

  lemma StepNoNull(t: Table, e: Event)
    requires Permitted(t, e) && NoNull(t.ls)
    ensures NoNull(Step(t, e).ls)
  {
  }

  lemma {:induction false} RunNoNull(t: Table, es: seq<Event>)
    requires AllPermitted(t, es) && NoNull(t.ls)
    ensures NoNull(Run(t, es).ls)
    decreases es
  {
    if es != [] {
      StepNoNull(t, es[0]);
      RunNoNull(Step(t, es[0]), es[1..]);
    }
  }

  /**
   In every run an open of a file that is not open is served by the vtable that is named, if that opens
   the file, and by no other; without one by the first loader in the list that opens it.
   */
  lemma OpenServedBy(es: seq<Event>, t: Table, e: Event)
    requires AllPermitted(START, es) && t == Run(START, es) && e.Opening? && Permitted(t, e)
    requires FirstMatch(t.rows, Named(e.filename)) == |t.rows|
    ensures NoNull(t.ls)
    ensures if e.vtable != null && e.opens(e.vtable) then
              Open(t, e).rows == [Row(e.handle, 1, e.resident)] + t.rows && e.handle.vtable == e.vtable
            else if e.vtable == null && exists j :: 0 <= j < |t.ls| && e.opens(t.ls[j].userdata) then
              && Open(t, e).rows == [Row(e.handle, 1, e.resident)] + t.rows && e.opens(e.handle.vtable)
              && exists j :: 0 <= j < |t.ls| && t.ls[j].userdata == e.handle.vtable &&
                             forall i | 0 <= i < j :: !e.opens(t.ls[i].userdata)
            else Open(t, e) == t
  {
    RunNoNull(START, es);
    ServedBy(t, e);
  }

  lemma ServedBy(t: Table, e: Event)
    requires e.Opening? && Permitted(t, e) && NoNull(t.ls) && FirstMatch(t.rows, Named(e.filename)) == |t.rows|
    ensures if e.vtable != null && e.opens(e.vtable) then
              Open(t, e).rows == [Row(e.handle, 1, e.resident)] + t.rows && e.handle.vtable == e.vtable
            else if e.vtable == null && exists j :: 0 <= j < |t.ls| && e.opens(t.ls[j].userdata) then
              && Open(t, e).rows == [Row(e.handle, 1, e.resident)] + t.rows && e.opens(e.handle.vtable)
              && exists j :: 0 <= j < |t.ls| && t.ls[j].userdata == e.handle.vtable &&
                             forall i | 0 <= i < j :: !e.opens(t.ls[i].userdata)
            else Open(t, e) == t
  {
    ServingExactly(t.ls, e.vtable, e.opens);
  }

  /** In every run an open crashes exactly when it names no vtable while the loader list is empty. */
  lemma CrashesExactly(es: seq<Event>, t: Table, e: Event)
    requires AllPermitted(START, es) && t == Run(START, es) && e.Opening?
    ensures Crashes(t, e) <==> e.vtable == null && t.ls == []
    ensures Crashes(t, e) ==> Open(t, e) == t
  {
    RunInv(es, t);
    NoHandlesLeft(t);
    NothingToMatch(t, e);
  }

  lemma NoHandlesLeft(t: Table)
    requires Inv(t)
    ensures t.ls == [] ==> t.rows == []
  {
    if t.rows != [] {
      assert Provides(t.ls, t.rows[0].handle.vtable);
    }
  }

  lemma NothingToMatch(t: Table, e: Event)
    requires e.Opening? && (t.ls == [] ==> t.rows == [])
    ensures Crashes(t, e) <==> e.vtable == null && t.ls == []
    ensures Crashes(t, e) ==> Open(t, e) == t
  {
  }

  /** In every run a close calls module_close exactly when it makes the closes equal the opens. */
  lemma CloseExactlyAtZero(es: seq<Event>, h: Handle)
    requires AllPermitted(START, es)
    requires Listed(Run(START, es).rows, h) && Permitted(Run(START, es), Closing(h))
    ensures var t := Run(START, es); var k, u := FirstMatch(t.rows, Holds(h)), Close(t, h);
            && k < |t.rows| && u.closings[h] == t.closings[h] + 1
            && u.closed == t.closed + (if !t.rows[k].resident && u.openings[h] == u.closings[h] then [h] else [])
  {
    var t := Run(START, es);
    RunInv(es, t);
    var k := FirstMatch(t.rows, Holds(h));
    var i :| 0 <= i < |t.rows| && t.rows[i].handle == h;
    FirstMatchBound(t.rows, Holds(h), i);
    assert RowCounted(t.rows[k], t.openings, t.closings);
  }

  lemma RowsPositive(t: Table)
    requires Counted(t)
    ensures Positive(t.rows)
  {
    assert forall i | 0 <= i < |t.rows| :: RowCounted(t.rows[i], t.openings, t.closings);
  }

  ghost predicate ResidentIn(rows: seq<Row>, h: Handle) {
    exists i :: 0 <= i < |rows| && rows[i].handle == h && rows[i].resident
  }

  lemma ListedFirst(rows: seq<Row>, h: Handle)
    requires rows != []
    ensures Listed(rows, h) <==> rows[0].handle == h || Listed(rows[1..], h)
    ensures ResidentIn(rows, h) <==> (rows[0].handle == h && rows[0].resident) || ResidentIn(rows[1..], h)
  {
    assert forall i | 0 < i < |rows| :: rows[i] == rows[1..][i - 1];
  }

  lemma {:induction false} NonResidentOnce(rows: seq<Row>, h: Handle)
    requires OnePerFile(rows)
    ensures multiset(NonResidents(rows))[h] == if Listed(rows, h) && !ResidentIn(rows, h) then 1 else 0
  {
    if rows != [] {
      var t := rows[1..];
      NonResidentOnce(t, h);
      ListedFirst(rows, h);
      assert forall i | 0 <= i < |t| :: t[i] == rows[i + 1] && t[i].handle != rows[0].handle;
    }
  }

  lemma DistinctOnce<X>(s: seq<X>, x: X)
    requires Distinct(s)
    ensures multiset(s)[x] == if x in s then 1 else 0
  {
    if s != [] {
      DistinctOnce(s[1..], x);
      assert s == [s[0]] + s[1..];
    }
  }

  /**
   A run that ends with the last lt_dlexit has called module_close exactly once for each handle that
   was opened, except for those resident at the end.
   */
  lemma RunThenExit(es: seq<Event>, t: Table, h: Handle)
    requires AllPermitted(START, es) && t == Run(START, es)
    ensures Positive(t.rows)
    ensures multiset(t.closed + Schedule(t.rows))[h] == if h in t.openings && !ResidentIn(t.rows, h) then 1 else 0
  {
    RunInv(es, t);
    ExitOnce(t, h);
  }

  lemma RunInv(es: seq<Event>, t: Table)
    requires AllPermitted(START, es) && t == Run(START, es)
    ensures Inv(t)
  {
    StartInv();
    RunKeeps(START, es);
  }

  lemma ExitOnce(t: Table, h: Handle)
    requires Inv(t)
    ensures Positive(t.rows)
    ensures multiset(t.closed + Schedule(t.rows))[h] == if h in t.openings && !ResidentIn(t.rows, h) then 1 else 0
  {
    RowsPositive(t);
    ScheduleIs(t.rows);
    ShutdownClosesEachOnce(t.rows);
    NonResidentOnce(t.rows, h);
    DistinctOnce(t.closed, h);
    ClosedOrListed(t, h);
  }

  lemma ClosedOrListed(t: Table, h: Handle)
    requires Counted(t) && ClosedOnce(t)
    ensures h in t.closed ==> !Listed(t.rows, h)
    ensures h in t.openings <==> h in t.closed || Listed(t.rows, h)
    ensures ResidentIn(t.rows, h) ==> Listed(t.rows, h)
  {
    if h in t.closed {
      var i :| 0 <= i < |t.closed| && t.closed[i] == h;
      assert !Listed(t.rows, t.closed[i]);
    }
    if Listed(t.rows, h) {
      var i :| 0 <= i < |t.rows| && t.rows[i].handle == h;
      assert RowCounted(t.rows[i], t.openings, t.closings);
    }
  }

  lemma FirstMatchBound<X>(s: seq<X>, find: X -> bool, i: nat)
    requires i < |s| && find(s[i])
    ensures FirstMatch(s, find) <= i
  {
    if FirstMatch(s, find) > i {
      assert false;
    }
  }
}
