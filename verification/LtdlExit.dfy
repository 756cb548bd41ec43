/**
 The last part of the shutdown of libltdl: the sweep over the loaders, and the whole of lt_dlexit.

 The sweep asks for the removal of each loader by its name, so a loader that is refused also keeps
 every later loader of the same name.
 */
module ModuleExit {
  import opened Basics
  import opened SLists
  import opened ModuleTable

  /** Whether the removal of a loader is refused: a module uses it, or its exit function fails. */
  ghost predicate Refused(rows: seq<Row>, v: Vtable?, exitFails: Vtable -> bool) {
    v != null && (InUse(rows, v) || exitFails(v))
  }

  ghost predicate Clings(l: Loader, rows: seq<Row>, exitFails: Vtable -> bool, name: string) {
    l.userdata != null && l.userdata.name == name && Refused(rows, l.userdata, exitFails)
  }

  /** Loader k stays when one of its name, itself or an earlier one, is refused. */
  ghost predicate Stays(ls: seq<Loader>, k: nat, rows: seq<Row>, exitFails: Vtable -> bool)
    requires NoNull(ls) && k < |ls|
  {
    exists j :: 0 <= j <= k && Clings(ls[j], rows, exitFails, ls[k].userdata.name)
  }

  /** What is left of the first k loaders. */
  ghost function Kept(ls: seq<Loader>, k: nat, rows: seq<Row>, exitFails: Vtable -> bool): seq<Loader>
    requires NoNull(ls) && k <= |ls|
  {
    if k == 0 then []
    else Kept(ls, k - 1, rows, exitFails) + if Stays(ls, k - 1, rows, exitFails) then [ls[k - 1]] else []
  }

  /** The first loader among the first k that has the name and is refused, or k. */
  ghost function FirstClinging(ls: seq<Loader>, k: nat, rows: seq<Row>, exitFails: Vtable -> bool,
                               name: string): (t: nat)
    requires NoNull(ls) && k <= |ls|
    ensures t <= k
    ensures t < k ==> Clings(ls[t], rows, exitFails, name)
    ensures forall j | 0 <= j < t :: !Clings(ls[j], rows, exitFails, name)
  {
    if k == 0 then 0
    else
      var t := FirstClinging(ls, k - 1, rows, exitFails, name);
      if t < k - 1 || Clings(ls[k - 1], rows, exitFails, name) then t else k
  }

  /** Loader k is the first of its name to be refused, and what refuses it is its exit function. */
  ghost predicate FailsExit(ls: seq<Loader>, k: nat, rows: seq<Row>, exitFails: Vtable -> bool)
    requires NoNull(ls) && k < |ls|
  {
    var v := ls[k].userdata;
    FirstClinging(ls, k, rows, exitFails, v.name) == k && !InUse(rows, v) && exitFails(v)
  }

  /** Whether an exit function has failed when the sweep has seen the first k loaders. */
  ghost predicate ExitFailed(ls: seq<Loader>, k: nat, rows: seq<Row>, exitFails: Vtable -> bool)
    requires NoNull(ls) && k <= |ls|
  {
    exists j :: 0 <= j < k && FailsExit(ls, j, rows, exitFails)
  }

  /** The refusals that are counted: those met while an error message is set. */
  ghost function Refusals(ls: seq<Loader>, k: nat, rows: seq<Row>, exitFails: Vtable -> bool, message: bool): nat
    requires NoNull(ls) && k <= |ls|
  {
    if k == 0 then 0
    else
      Refusals(ls, k - 1, rows, exitFails, message) +
      if Stays(ls, k - 1, rows, exitFails) && (message || ExitFailed(ls, k, rows, exitFails)) then 1 else 0
  }

  lemma FirstMatchSnoc<X>(s: seq<X>, x: X, find: X -> bool)
    ensures FirstMatch(s + [x], find) ==
            if FirstMatch(s, find) < |s| then FirstMatch(s, find) else if find(x) then |s| else |s| + 1
    ensures s + [] == s
  {
    var k := FirstMatch(s, find);
    FirstMatchIs(s + [x], find, if k < |s| then k else if find(x) then |s| else |s| + 1);
  }

  lemma StaysIs(ls: seq<Loader>, k: nat, rows: seq<Row>, exitFails: Vtable -> bool, name: string)
    requires NoNull(ls) && k < |ls| && ls[k].userdata.name == name
    ensures Stays(ls, k, rows, exitFails) <==>
            FirstClinging(ls, k, rows, exitFails, name) < k || Refused(rows, ls[k].userdata, exitFails)
  {
  }

  /** The first kept loader of a name is the first refused one. */
  lemma {:induction false} KeptFirst(ls: seq<Loader>, k: nat, rows: seq<Row>, exitFails: Vtable -> bool, name: string)
    requires NoNull(ls) && k <= |ls|
    ensures var m := FirstMatch(Kept(ls, k, rows, exitFails), LoaderNamed(name));
            var t := FirstClinging(ls, k, rows, exitFails, name);
            if t < k then m < |Kept(ls, k, rows, exitFails)| && Kept(ls, k, rows, exitFails)[m] == ls[t]
            else m == |Kept(ls, k, rows, exitFails)|
  {
    if k > 0 {
      KeptFirst(ls, k - 1, rows, exitFails, name);
      StaysIs(ls, k - 1, rows, exitFails, ls[k - 1].userdata.name);
      FirstMatchSnoc(Kept(ls, k - 1, rows, exitFails), ls[k - 1], LoaderNamed(name));
    }
  }

  /** The list when the sweep comes to loader k. */
  ghost function Sweeping(ls: seq<Loader>, k: nat, rows: seq<Row>, exitFails: Vtable -> bool): seq<Loader>
    requires NoNull(ls) && k <= |ls|
  {
    Kept(ls, k, rows, exitFails) + ls[k..]
  }

  /** The loader that the sweep asks about at loader k. */
  lemma AskedIs(ls: seq<Loader>, k: nat, rows: seq<Row>, exitFails: Vtable -> bool)
    requires NoNull(ls) && k < |ls|
    ensures var cur, name := Sweeping(ls, k, rows, exitFails), ls[k].userdata.name;
            var m := FirstMatch(cur, LoaderNamed(name));
            && m < |cur| && cur[m] == ls[FirstClinging(ls, k, rows, exitFails, name)]
            && (FirstClinging(ls, k, rows, exitFails, name) == k ==> m == |Kept(ls, k, rows, exitFails)|)
  {
    var name, kept := ls[k].userdata.name, Kept(ls, k, rows, exitFails);
    var cur, m := Sweeping(ls, k, rows, exitFails), FirstMatch(kept, LoaderNamed(name));
    KeptFirst(ls, k, rows, exitFails, name);
    assert cur[|kept|] == ls[k] && forall i | 0 <= i < |kept| :: cur[i] == kept[i];
    FirstMatchIs(cur, LoaderNamed(name), m);
  }

  /** What the sweep does at loader k. */
  lemma SweepStep(ls: seq<Loader>, k: nat, rows: seq<Row>, exitFails: Vtable -> bool)
    requires NoNull(ls) && k < |ls|
    ensures var cur, name := Sweeping(ls, k, rows, exitFails), ls[k].userdata.name;
            if RemovedVtable(cur, rows, name, exitFails) == null
            then Stays(ls, k, rows, exitFails) && Sweeping(ls, k + 1, rows, exitFails) == cur
            else !Stays(ls, k, rows, exitFails) &&
                 Sweeping(ls, k + 1, rows, exitFails) == RemoveAt(cur, FirstMatch(cur, LoaderNamed(name)))
  {
    AskedIs(ls, k, rows, exitFails);
    StaysIs(ls, k, rows, exitFails, ls[k].userdata.name);
    var kept := Kept(ls, k, rows, exitFails);
    assert kept + ls[k..] == (kept + [ls[k]]) + ls[k + 1..];
    assert RemoveAt(kept + ls[k..], |kept|) == kept + [] + ls[k + 1..];
  }

  /** When the sweep is told of an error at loader k, an exit function has failed by then. */
  lemma SweepComplains(ls: seq<Loader>, k: nat, rows: seq<Row>, exitFails: Vtable -> bool)
    requires NoNull(ls) && k < |ls| && AllResident(rows)
    ensures var cur, name := Sweeping(ls, k, rows, exitFails), ls[k].userdata.name;
            ExitFailed(ls, k + 1, rows, exitFails) <==>
            ExitFailed(ls, k, rows, exitFails) || RemovalComplains(cur, rows, name, exitFails)
  {
    AskedIs(ls, k, rows, exitFails);
    var name := ls[k].userdata.name;
    var a := FirstClinging(ls, k, rows, exitFails, name);
    assert a < k ==> FirstClinging(ls, a, rows, exitFails, name) == a;
    assert a < k && !InUse(rows, ls[a].userdata) ==> FailsExit(ls, a, rows, exitFails);
    assert FailsExit(ls, k, rows, exitFails) ==> a == k;
  }

  /** The sweep has dealt with the first k of the loaders that were there, and stands at node loader. */
  ghost predicate Underway(lib: Ltdl, loader: SList?<Vtable?>, ls: seq<Loader>, k: nat,
                           rows: seq<Row>, exitFails: Vtable -> bool)
    requires NoNull(ls) && k <= |ls|
    reads lib, lib.hs, lib.ls
  {
    && lib.Valid() && lib.Rows() == rows
    && lib.ls == Sweeping(ls, k, rows, exitFails) && loader == At(ls, k)
  }

  lemma WithinConcat(a: seq<Loader>, b: seq<Loader>, ls: seq<Loader>)
    requires Within(a, Elems(ls)) && Within(b, Elems(ls))
    ensures Within(a + b, Elems(ls))
  {
  }

  lemma {:induction false} KeptIn(ls: seq<Loader>, k: nat, rows: seq<Row>, exitFails: Vtable -> bool)
    requires NoNull(ls) && k <= |ls|
    ensures Within(Kept(ls, k, rows, exitFails), Elems(ls))
  {
    if k > 0 {
      KeptIn(ls, k - 1, rows, exitFails);
      assert ls[k - 1] in ls;
      var one := if Stays(ls, k - 1, rows, exitFails) then [ls[k - 1]] else [];
      WithinConcat(Kept(ls, k - 1, rows, exitFails), one, ls);
    }
  }

  lemma SweepingIn(ls: seq<Loader>, k: nat, rows: seq<Row>, exitFails: Vtable -> bool)
    requires NoNull(ls) && k <= |ls|
    ensures Within(Sweeping(ls, k, rows, exitFails), Elems(ls))
  {
    KeptIn(ls, k, rows, exitFails);
    assert forall i | 0 <= i < |ls[k..]| :: ls[k..][i] == ls[k + i];
    WithinConcat(Kept(ls, k, rows, exitFails), ls[k..], ls);
  }

  /** Whether an error message is set, and the refusals counted so far. */
  ghost predicate Tally(ls: seq<Loader>, k: nat, rows: seq<Row>, exitFails: Vtable -> bool, message: bool,
                        err: bool, errors: nat)
    requires NoNull(ls) && k <= |ls|
  {
    && (err <==> message || ExitFailed(ls, k, rows, exitFails))
    && errors == Refusals(ls, k, rows, exitFails, message)
  }

  lemma TallyNext(ls: seq<Loader>, k: nat, rows: seq<Row>, exitFails: Vtable -> bool, message: bool,
                  err: bool, errors: nat, refused: bool, complains: bool)
    requires NoNull(ls) && k < |ls| && AllResident(rows) && Tally(ls, k, rows, exitFails, message, err, errors)
    requires refused <==> Stays(ls, k, rows, exitFails)
    requires complains <==> RemovalComplains(Sweeping(ls, k, rows, exitFails), rows, ls[k].userdata.name, exitFails)
    ensures Tally(ls, k + 1, rows, exitFails, message, err || complains,
                  errors + if refused && (err || complains) then 1 else 0)
  {
    SweepComplains(ls, k, rows, exitFails);
  }

  lemma SweepBegins(lib: Ltdl, rows: seq<Row>, exitFails: Vtable -> bool)
    requires lib.Valid() && lib.Rows() == rows
    ensures Underway(lib, lib.loaders, lib.ls, 0, rows, exitFails)
  {
    assert [] + lib.ls == lib.ls;
  }

  lemma SweepEnds(lib: Ltdl, ls: seq<Loader>, rows: seq<Row>, exitFails: Vtable -> bool)
    requires NoNull(ls) && Underway(lib, null, ls, |ls|, rows, exitFails)
    ensures lib.Valid() && lib.Rows() == rows && lib.ls == Kept(ls, |ls|, rows, exitFails)
  {
  }

  /** The sweep over the loaders; message says whether a failed close has left an error message. */
  method CloseLoaders(lib: Ltdl, exitFails: Vtable -> bool, message: bool) returns (errors: nat)
    requires lib.Valid() && AllResident(lib.Rows())
    modifies lib`loaders, lib`ls, lib.ls
    ensures lib.Valid() && lib.Rows() == old(lib.Rows())
    ensures var ls, rows := old(lib.ls), old(lib.Rows());
            && lib.ls == Kept(ls, |ls|, rows, exitFails)
            && errors == Refusals(ls, |ls|, rows, exitFails, message)
  {
    ghost var ls, rows := lib.ls, lib.Rows();
    SweepBegins(lib, rows, exitFails);
    errors := Sweep(lib, exitFails, message, ls, rows);
    SweepEnds(lib, ls, rows, exitFails);
  }

  method Sweep(lib: Ltdl, exitFails: Vtable -> bool, message: bool, ghost ls: seq<Loader>, ghost rows: seq<Row>)
      returns (errors: nat)
    requires NoNull(ls) && AllResident(rows) && Underway(lib, lib.loaders, ls, 0, rows, exitFails)
    modifies lib`loaders, lib`ls, ls
    ensures Underway(lib, null, ls, |ls|, rows, exitFails)
    ensures errors == Refusals(ls, |ls|, rows, exitFails, message)
  {
    ghost var k := 0;
    var loader, err := lib.loaders, message;
    errors := 0;
    while loader != null
      invariant k <= |ls| && Underway(lib, loader, ls, k, rows, exitFails)
      invariant Tally(ls, k, rows, exitFails, message, err, errors)
      decreases |ls| - k
    {
      loader, err, errors := CloseLoader(lib, loader, exitFails, err, errors, ls, k, rows, message);
      k := k + 1;
    }
  }

  /** The body of the sweep. */
  method CloseLoader(lib: Ltdl, loader: Loader, exitFails: Vtable -> bool, err: bool, errors: nat,
                     ghost ls: seq<Loader>, ghost k: nat, ghost rows: seq<Row>, ghost message: bool)
      returns (next: SList?<Vtable?>, err': bool, errors': nat)
    requires NoNull(ls) && k < |ls| && AllResident(rows) && Underway(lib, loader, ls, k, rows, exitFails)
    requires Tally(ls, k, rows, exitFails, message, err, errors)
    modifies lib`loaders, lib`ls, ls
    ensures Underway(lib, next, ls, k + 1, rows, exitFails)
    ensures Tally(ls, k + 1, rows, exitFails, message, err', errors')
  {
    NextLoader(lib, loader, ls, k, rows, exitFails);
    next := loader.next;
    var refused, complains := TryRemoval(lib, loader, exitFails, ls, k, rows);
    TallyNext(ls, k, rows, exitFails, message, err, errors, refused, complains);
    err' := err || complains;
    errors' := errors + if refused && err' then 1 else 0;
  }

  method TryRemoval(lib: Ltdl, loader: Loader, exitFails: Vtable -> bool,
                    ghost ls: seq<Loader>, ghost k: nat, ghost rows: seq<Row>)
      returns (refused: bool, complains: bool)
    requires NoNull(ls) && k < |ls| && Underway(lib, loader, ls, k, rows, exitFails)
    modifies lib`loaders, lib`ls, ls
    ensures Underway(lib, At(ls, k + 1), ls, k + 1, rows, exitFails)
    ensures refused <==> Stays(ls, k, rows, exitFails)
    ensures complains <==>
            RemovalComplains(Sweeping(ls, k, rows, exitFails), rows, ls[k].userdata.name, exitFails)
  {
    SweepStep(ls, k, rows, exitFails);
    SweepingIn(ls, k, rows, exitFails);
    assert lib.ls == Sweeping(ls, k, rows, exitFails) && loader == ls[k];
    var vtable;
    vtable, complains := lib.RemoveLoader(loader.userdata.name, exitFails);
    refused := vtable == null;
  }

  lemma NextLoader(lib: Ltdl, loader: Loader, ls: seq<Loader>, k: nat, rows: seq<Row>, exitFails: Vtable -> bool)
    requires NoNull(ls) && k < |ls| && Underway(lib, loader, ls, k, rows, exitFails)
    ensures loader.next == At(ls, k + 1)
  {
    var m := |Kept(ls, k, rows, exitFails)|;
    assert lib.ls[m] == loader && loader.next == At(lib.ls, m + 1);
    assert k + 1 < |ls| ==> lib.ls[m + 1] == ls[k + 1];
  }

  lemma {:induction false} ResidentsAll(rows: seq<Row>)
    ensures AllResident(Residents(rows))
  {
    if rows != [] {
      ResidentsAll(rows[1..]);
    }
  }

  /**
   lt_dlexit.  Only the call that matches the first lt_dlinit acts; message says whether a close that
   failed has left an error message.
   */
  method Exit(lib: Ltdl, status: Handle -> int, exitFails: Vtable -> bool, message: bool, ghost all: set<Handle>)
      returns (errors: int)
    requires lib.Valid() && Positive(lib.Rows()) && HandlesIn(lib.Rows(), all)
    modifies lib, all, lib.ls
    ensures lib.Valid()
    ensures lib.initialized == if old(lib.initialized) == 0 then 0 else old(lib.initialized) - 1
    ensures old(lib.initialized) != 1 ==>
              && errors == (if old(lib.initialized) == 0 then 1 else 0)
              && lib.Rows() == old(lib.Rows()) && lib.closed == old(lib.closed) && lib.ls == old(lib.ls)
    ensures old(lib.initialized) == 1 ==>
              var rows, ls := old(lib.Rows()), old(lib.ls);
              var left, failed := Residents(DropLead(rows)), Failures(Schedule(rows), status);
              && lib.Rows() == left && lib.closed == old(lib.closed) + Schedule(rows)
              && lib.ls == Kept(ls, |ls|, left, exitFails)
              && errors == failed + Refusals(ls, |ls|, left, exitFails, message && failed != 0)
  {
    if lib.initialized == 0 {
      return 1;
    }
    lib.initialized := lib.initialized - 1;
    errors := 0;
    if lib.initialized == 0 {
      ResidentsAll(DropLead(lib.Rows()));
      errors := lib.CloseHandles(status, all);
      var refused := CloseLoaders(lib, exitFails, message && errors != 0);
      errors := errors + refused;
    }
  }

  // ---------------------------------------------------------------------------------------
  // What the sweep leaves and what it counts
  // ---------------------------------------------------------------------------------------

  /** A loader is left exactly when one of its name, itself or an earlier one, is refused. */
  lemma {:induction false} LeftExactly(ls: seq<Loader>, n: nat, k: nat, rows: seq<Row>, exitFails: Vtable -> bool)
    requires NoNull(ls) && Distinct(ls) && n <= |ls| && k < |ls|
    ensures ls[k] in Kept(ls, n, rows, exitFails) <==> k < n && Stays(ls, k, rows, exitFails)
  {
    if n > 0 {
      LeftExactly(ls, n - 1, k, rows, exitFails);
      assert ls[k] == ls[n - 1] <==> k == n - 1;
    }
  }

  /** Without a message from a failed close, nothing is counted exactly when no exit function fails. */
  lemma {:induction false} NothingCountedExactly(ls: seq<Loader>, n: nat, rows: seq<Row>, exitFails: Vtable -> bool,
                                                 message: bool)
    requires NoNull(ls) && n <= |ls| && !message
    ensures Refusals(ls, n, rows, exitFails, message) == 0 <==> !ExitFailed(ls, n, rows, exitFails)
  {
    if n > 0 {
      NothingCountedExactly(ls, n - 1, rows, exitFails, message);
      if FailsExit(ls, n - 1, rows, exitFails) {
        assert Clings(ls[n - 1], rows, exitFails, ls[n - 1].userdata.name);
        assert Stays(ls, n - 1, rows, exitFails) && ExitFailed(ls, n, rows, exitFails);
      } else {
        assert ExitFailed(ls, n, rows, exitFails) <==> ExitFailed(ls, n - 1, rows, exitFails);
      }
    }
  }

  /** With one, every loader that is left is counted. */
  lemma {:induction false} AllCounted(ls: seq<Loader>, n: nat, rows: seq<Row>, exitFails: Vtable -> bool)
    requires NoNull(ls) && n <= |ls|
    ensures Refusals(ls, n, rows, exitFails, true) == |Kept(ls, n, rows, exitFails)|
  {
    if n > 0 {
      AllCounted(ls, n - 1, rows, exitFails);
    }
  }

  /** A resident handle that is behind a handle that is not resident. */
  ghost predicate Behind(rows: seq<Row>, v: Vtable, i: nat, j: nat) {
    j < i < |rows| && !rows[j].resident && rows[i].resident && rows[i].handle.vtable == v
  }

  lemma {:induction false} ResidentsUse(rows: seq<Row>, v: Vtable)
    ensures InUse(Residents(rows), v) <==> InUseByResident(rows, v)
  {
    if rows != [] {
      var r, t := rows[0], rows[1..];
      ResidentsUse(t, v);
      UseCons(r, t, v);
      if r.resident {
        UseCons(r, Residents(t), v);
      } else {
        assert Residents(rows) == Residents(t);
      }
      assert rows == [r] + t;
    }
  }

  lemma UseCons(r: Row, rows: seq<Row>, v: Vtable)
    ensures InUse([r] + rows, v) <==> r.handle.vtable == v || InUse(rows, v)
    ensures InUseByResident([r] + rows, v) <==> (r.handle.vtable == v && r.resident) || InUseByResident(rows, v)
  {
    var s := [r] + rows;
    assert s[0] == r && forall i | 0 <= i < |rows| :: s[i + 1] == rows[i];
  }

  /** The sweep finds a module of the loader exactly when a resident one is behind one that is not. */
  lemma {:induction false} UsedAtSweepExactly(rows: seq<Row>, v: Vtable)
    ensures InUse(Residents(DropLead(rows)), v) <==> exists i: nat, j: nat :: Behind(rows, v, i, j)
  {
    if rows != [] && rows[0].resident {
      UsedAtSweepExactly(rows[1..], v);
      assert forall i: nat, j: nat :: Behind(rows[1..], v, i, j) ==> Behind(rows, v, i + 1, j + 1);
      assert forall i: nat, j: nat :: Behind(rows, v, i, j) ==> j > 0 && Behind(rows[1..], v, i - 1, j - 1);
    } else {
      ResidentsUse(rows, v);
      assert forall i: nat, j: nat :: Behind(rows, v, i, j) ==> rows[i].resident && rows[i].handle.vtable == v;
      if InUseByResident(rows, v) {
        var i :| 0 <= i < |rows| && rows[i].handle.vtable == v && rows[i].resident;
        assert Behind(rows, v, i, 0);
      }
    }
  }

  /** The exit function of the loader fails, or a resident module of it is behind one that is not. */
  ghost predicate Needed(rows: seq<Row>, v: Vtable, exitFails: Vtable -> bool) {
    exitFails(v) || exists i: nat, j: nat :: Behind(rows, v, i, j)
  }

  /** A loader survives the shutdown exactly when it or an earlier one of its name is needed like that. */
  lemma LoaderSurvivesExactly(rows: seq<Row>, ls: seq<Loader>, k: nat, exitFails: Vtable -> bool)
    requires NoNull(ls) && Distinct(ls) && k < |ls|
    ensures ls[k] in Kept(ls, |ls|, Residents(DropLead(rows)), exitFails) <==>
            exists j :: 0 <= j <= k && ls[j].userdata.name == ls[k].userdata.name &&
                        Needed(rows, ls[j].userdata, exitFails)
  {
    var left := Residents(DropLead(rows));
    LeftExactly(ls, |ls|, k, left, exitFails);
    forall j | 0 <= j <= k
      ensures Refused(left, ls[j].userdata, exitFails) <==> Needed(rows, ls[j].userdata, exitFails)
    {
      UsedAtSweepExactly(rows, ls[j].userdata);
    }
    assert forall j | 0 <= j <= k :: Clings(ls[j], left, exitFails, ls[k].userdata.name) <==>
             ls[j].userdata.name == ls[k].userdata.name && Needed(rows, ls[j].userdata, exitFails);
  }

  /** A resident module in front of the list stays loaded, and its loader is removed. */
  lemma ResidentLosesLoader(r: Row, ls: seq<Loader>, exitFails: Vtable -> bool)
    requires r.resident && |ls| == 1 && ls[0].userdata == r.handle.vtable && !exitFails(r.handle.vtable)
    ensures Schedule([r]) == [] && Kept(ls, |ls|, Residents(DropLead([r])), exitFails) == []
  {
    assert forall i: nat, j: nat :: !Behind([r], r.handle.vtable, i, j);
    LoaderSurvivesExactly([r], ls, 0, exitFails);
    KeptWithin(ls, |ls|, Residents(DropLead([r])), exitFails);
    assert [r][1..] == [] && Largest([r]) == 0;
  }

  lemma KeptWithin(ls: seq<Loader>, n: nat, rows: seq<Row>, exitFails: Vtable -> bool)
    requires NoNull(ls) && n == |ls| == 1
    ensures Kept(ls, n, rows, exitFails) == [] || ls[0] in Kept(ls, n, rows, exitFails)
  {
  }
}
