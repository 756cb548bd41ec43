/**
 The user search path of libltdl: one string of directories, taken apart into an argz vector,
 extended by one entry and put together again.
 */
module SearchPaths {
  import opened Basics
  import opened Paths
  import opened ArgzVectors

  /** The bytes after the insertion, before they are put together. */
  ghost function Inserted(b: string, before: Option<nat>, dir: string): string
    requires before.Some? ==> before.value <= |b|
  {
    if before.None? then b + (dir + [EOS]) else Spliced(b, before.value, dir)
  }

  /** The new search path: what a reader of the C string sees, that is up to the first EOS. */
  ghost function WithDir(path: string, before: Option<nat>, dir: string): string
    requires before.Some? ==> before.value <= |Sep(path, PATHSEP)|
  {
    CStringAt(Stringified(Inserted(Sep(path, PATHSEP), before, dir), PATHSEP), 0)
  }

  class SearchPath {
    var path: Option<string>

    ghost predicate Valid()
      reads this
    {
      path.Some? ==> CString(path.value)
    }

    constructor ()
      ensures path == None
    {
      path := None;
    }

    /** lt_dlsetsearchpath. */
    method Set(searchPath: Option<string>)
      requires searchPath.Some? ==> CString(searchPath.value)
      modifies this
      ensures Valid()
      ensures path == if searchPath.None? || searchPath.value == "" then None
                      else Some(Canonical(searchPath.value))
    {
      path := None;
      if searchPath.None? || |searchPath.value| == 0 {
        return;
      }
      var canonical, dest := CanonicalizePath(searchPath.value);
      path := Some(canonical[..dest]);
      ScanCString(searchPath.value, false);
    }

    /**
     lt_dlpath_insertdir.  The canonical form of dir is computed, but it is dir itself that becomes part
     of the path; that the form is not empty is only asserted.  An offset into the path is used as an
     offset into the vector; outside says that it lies behind the vector, where the model stops.
     */
    method InsertDir(before: Option<nat>, dir: string) returns (outside: bool)
      requires Valid() && dir != "" && CString(dir)
      requires before.Some? ==> path.Some? && before.value < |path.value|
      modifies this
      ensures Valid()
      ensures outside <==> before.Some? && before.value > |Sep(old(path).value, PATHSEP)|
      ensures path == if outside then old(path)
                      else Some(if old(path).None? then dir else WithDir(old(path).value, before, dir))
    {
      outside := false;
      var canonical, dest := CanonicalizePath(dir);
      if path.None? {
        path := Some(dir);
        return;
      }
      var block, len := CreateSep(path.value, PATHSEP);
      if before.Some? && before.value > len {
        return true;
      }
      var argz := new Argz.Of(block, len);
      argz.Insert(before, dir);
      ghost var b := argz.argz[..];
      assert b == Inserted(Sep(path.value, PATHSEP), before, dir);
      assert argz.argz[..argz.argz.Length] == b;
      Stringify(argz.argz, argz.argz.Length, PATHSEP);
      assert argz.argz[..] == argz.argz[..argz.argz.Length] == Stringified(b, PATHSEP);
      var s := ReadCString(argz.argz);
      path := Some(s);
    }

    /** lt_dladdsearchdir. */
    method AddSearchDir(dir: Option<string>)
      requires Valid() && (dir.Some? ==> CString(dir.value))
      modifies this
      ensures Valid()
      ensures path == Put(old(path), None, Text(dir))
    {
      if dir.Some? && dir.value != "" {
        var _ := InsertDir(None, dir.value);
      }
    }

    /** lt_dlinsertsearchdir; the position is an offset from the start of the path, where there is one. */
    method InsertSearchDir(before: Option<int>, dir: Option<string>) returns (failed: bool, outside: bool)
      requires Valid() && (dir.Some? ==> CString(dir.value))
      modifies this
      ensures Valid()
      ensures failed <==> before.Some? && !(old(path).Some? && 0 <= before.value < |old(path).value|)
      ensures failed ==> path == old(path) && !outside
      ensures !failed ==> var at := if before.None? then None else Some(before.value);
                          outside == Behind(old(path), at, Text(dir)) &&
                          path == if outside then old(path) else Put(old(path), at, Text(dir))
    {
      outside := false;
      if before.Some? && !(path.Some? && 0 <= before.value < |path.value|) {
        return true, false;
      }
      failed := false;
      if dir.Some? && dir.value != "" {
        outside := InsertDir(if before.None? then None else Some(before.value), dir.value);
      }
    }
  }

  /** A null pointer names no directory, like an empty string. */
  function Text(dir: Option<string>): string {
    if dir.None? then "" else dir.value
  }

  /** The position lies in the path, but its offset behind the vector. */
  ghost predicate Behind(path: Option<string>, before: Option<nat>, dir: string) {
    && dir != "" && before.Some? && path.Some?
    && before.value < |path.value| && before.value > |Sep(path.value, PATHSEP)|
  }

  /** The user path after a directory has been put into it; a position outside the path is refused. */
  ghost function Put(path: Option<string>, before: Option<nat>, dir: string): Option<string>
    requires !Behind(path, before, dir)
  {
    if dir == "" || Misplaced(path, before) then path
    else if path.None? then Some(dir)
    else Some(WithDir(path.value, before, dir))
  }

  ghost predicate Misplaced(path: Option<string>, before: Option<nat>) {
    before.Some? && !(path.Some? && before.value < |path.value|)
  }

  /** The C string held by a block. */
  method ReadCString(a: array<char>) returns (s: string)
    ensures s == CStringAt(a[..], 0) && CString(s)
  {
    s := "";
    var i := 0;
    while i < a.Length && a[i] != EOS
      invariant i <= a.Length && CString(s)
      invariant s + CStringAt(a[..], i) == CStringAt(a[..], 0)
    {
      assert s + ([a[i]] + CStringAt(a[..], i + 1)) == s + [a[i]] + CStringAt(a[..], i + 1);
      s := s + [a[i]];
      i := i + 1;
    }
    assert s + "" == s;
  }

  // ---------------------------------------------------------------------------------------
  // What the new path is
  // ---------------------------------------------------------------------------------------

  lemma SwappedConcat(a: string, b: string)
    ensures Swapped(a + b, EOS, PATHSEP) == Swapped(a, EOS, PATHSEP) + Swapped(b, EOS, PATHSEP)
  {
  }

  lemma SwappedNothing(a: string)
    requires CString(a)
    ensures Swapped(a, EOS, PATHSEP) == a
  {
  }

  /** The bytes of a list, last terminator aside, are the joined list with terminators for separators. */
  lemma {:induction false} FlatIsJoin(es: seq<string>) returns (m: string)
    requires es != [] && CStrings(es)
    ensures Flat(es) == m + [EOS] && Swapped(m, EOS, PATHSEP) == Join(es)
    ensures es[0] != "" ==> m != "" && m[0] != EOS
  {
    var e, rest := es[0], es[1..];
    SwappedNothing(e);
    if rest == [] {
      m := e;
      assert Flat(rest) == "" && e + [EOS] + "" == e + [EOS];
      assert Join(es) == e + "";
    } else {
      var n := FlatIsJoin(rest);
      m := e + ([EOS] + n);
      assert m + [EOS] == e + [EOS] + (n + [EOS]);
      SwappedConcat(e, [EOS] + n);
      SwappedConcat([EOS], n);
      assert Swapped([EOS], EOS, PATHSEP) == [PATHSEP];
      assert [PATHSEP] + (rest[0] + Trail(rest[1..])) == Trail(rest);
    }
  }

  /** Putting a vector together joins its entries, unless the first of them is empty. */
  lemma StringifyJoins(es: seq<string>)
    requires es != [] && es[0] != "" && CStrings(es)
    ensures Stringified(Flat(es), PATHSEP) == Join(es) + [EOS]
  {
    var m := FlatIsJoin(es);
    var b := m + [EOS];
    assert Stringified(b, PATHSEP) == Swapped(m, EOS, PATHSEP) + [EOS];
  }

  lemma {:induction false} CStringOf(s: string, t: string, i: nat)
    requires CString(s) && i <= |s|
    ensures CStringAt(s + [EOS] + t, i) == s[i..]
    decreases |s| - i
  {
    if i < |s| {
      CStringOf(s, t, i + 1);
    }
  }

  lemma {:induction false} TrailCString(es: seq<string>)
    requires CStrings(es)
    ensures CString(Trail(es))
  {
    if es != [] {
      TrailCString(es[1..]);
    }
  }

  /** The path read back from the vector es. */
  lemma ReadJoined(es: seq<string>)
    requires es != [] && es[0] != "" && CStrings(es)
    ensures CStringAt(Stringified(Flat(es), PATHSEP), 0) == Join(es)
  {
    StringifyJoins(es);
    TrailCString(es[1..]);
    CStringOf(Join(es), "", 0);
    assert Join(es) + [EOS] + "" == Join(es) + [EOS];
  }

  lemma {:induction false} TrailAppend(es: seq<string>, e: string)
    ensures Trail(es + [e]) == Trail(es) + ([PATHSEP] + e)
  {
    if es == [] {
      assert es + [e] == [e] && [e][1..] == [];
    } else {
      assert (es + [e])[1..] == es[1..] + [e];
      TrailAppend(es[1..], e);
    }
  }

  lemma JoinAppend(es: seq<string>, e: string)
    requires es != []
    ensures Join(es + [e]) == Join(es) + ([PATHSEP] + e)
  {
    assert (es + [e])[1..] == es[1..] + [e];
    TrailAppend(es[1..], e);
  }

  lemma {:induction false} FlatAppend(es: seq<string>, e: string)
    ensures Flat(es + [e]) == Flat(es) + (e + [EOS])
  {
    if es == [] {
      FlatCons(e, []);
      assert [] + [e] == [e] + [];
      assert e + [EOS] + "" == "" + (e + [EOS]);
    } else {
      assert es + [e] == [es[0]] + (es[1..] + [e]);
      FlatCons(es[0], es[1..] + [e]);
      FlatAppend(es[1..], e);
    }
  }

  /** The entries of a path: its pieces, with an empty one behind a final separator. */
  ghost function PathEntries(path: string): seq<string> {
    Parts(path, PATHSEP) + LastEmpty(path, PATHSEP)
  }

  lemma PathEntriesFacts(path: string)
    requires CString(path)
    ensures Sep(path, PATHSEP) == Flat(PathEntries(path)) && CStrings(PathEntries(path))
    ensures PathEntries(path) != []
    ensures PathEntries(path)[0] != "" <==> Parts(path, PATHSEP) != []
  {
    SepEntries(path, PATHSEP);
    PartsLackDelimiter(path, PATHSEP);
    SepLength(path, PATHSEP, true);
  }

  /** Added behind a path that has an element, the directory comes after a separator. */
  lemma AppendedDir(path: string, dir: string)
    requires CString(path) && CString(dir) && Parts(path, PATHSEP) != []
    ensures WithDir(path, None, dir) == Join(PathEntries(path)) + ([PATHSEP] + dir)
  {
    var es := PathEntries(path);
    PathEntriesFacts(path);
    FlatAppend(es, dir);
    ReadJoined(es + [dir]);
    JoinAppend(es, dir);
  }

  lemma {:induction false} PartsConcat(a: string, b: string)
    ensures Parts(a + ([PATHSEP] + b), PATHSEP) == Parts(a, PATHSEP) + Parts(b, PATHSEP)
    decreases |a|
  {
    var s := a + ([PATHSEP] + b);
    if a == "" {
      assert s[0] == PATHSEP && s[1..] == b;
    } else if a[0] == PATHSEP {
      assert s[1..] == a[1..] + ([PATHSEP] + b);
      PartsConcat(a[1..], b);
    } else {
      var n := Run(a, PATHSEP);
      var t := a[n..];
      PartsConcat(t, b);
      assert a == a[..n] + t && s == a[..n] + (t + ([PATHSEP] + b));
      PartsOfRun(a[..n], t, PATHSEP);
      assert (t + ([PATHSEP] + b))[0] == PATHSEP;
      PartsOfRun(a[..n], t + ([PATHSEP] + b), PATHSEP);
    }
  }

  lemma NormalFormParts(path: string)
    requires CString(path) && NormalForm(path) && path != ""
    ensures Parts(path, PATHSEP) != [] && PathEntries(path) == Parts(path, PATHSEP)
    ensures Join(Parts(path, PATHSEP)) == path
  {
    assert GoodPair(path[|path| - 1], Next(path, |path| - 1));
    NormalFormRoundTrip(path);
    SepEntries(path, PATHSEP);
    PathEntriesFacts(path);
    ReadJoined(PathEntries(path));
    CStringOf(path, "", 0);
    assert path + [EOS] + "" == path + [EOS];
  }

  /**
   The entries are said to be canonicalized as they are added; a path in normal form stays so
   exactly when the directory was in normal form to begin with.
   */
  lemma AddDirNormalFormExactly(path: string, dir: string)
    requires CString(path) && NormalForm(path) && path != ""
    requires CString(dir) && dir != ""
    ensures WithDir(path, None, dir) == path + ([PATHSEP] + dir)
    ensures NormalForm(WithDir(path, None, dir)) <==> NormalForm(dir)
  {
    NormalFormParts(path);
    AppendedDir(path, dir);
    PairsConcat(path, [PATHSEP] + dir);
    SeparatorBefore(dir);
  }

  /** Which entry of the vector a directory is put before; without a position it comes last. */
  ghost function Place(path: string, before: Option<nat>): nat
    requires before.Some? ==> before.value <= |Sep(path, PATHSEP)|
  {
    if before.None? then |PathEntries(path)| else EntryIndex(Sep(path, PATHSEP), before.value)
  }

  /** The entries with a directory put before entry k. */
  ghost function PutAt(es: seq<string>, k: nat, dir: string): seq<string>
    requires k <= |es|
  {
    es[..k] + [dir] + es[k..]
  }

  lemma InsertedIs(path: string, before: Option<nat>, dir: string)
    requires CString(path) && CString(dir) && (before.Some? ==> before.value <= |Sep(path, PATHSEP)|)
    ensures Place(path, before) <= |PathEntries(path)|
    ensures Inserted(Sep(path, PATHSEP), before, dir) == Flat(PutAt(PathEntries(path), Place(path, before), dir))
  {
    var b, es := Sep(path, PATHSEP), PathEntries(path);
    PathEntriesFacts(path);
    EntriesOfFlat(es);
    if before.None? {
      FlatAppend(es, dir);
      assert PutAt(es, |es|, dir) == es + [dir];
    } else {
      SpliceInsertsEntry(b, before.value, dir);
      FlatOfEntries(Spliced(b, before.value, dir));
    }
  }

  /** What is read back: the entries joined, or nothing if the first of them is empty. */
  lemma ReadBack(es: seq<string>)
    requires es != [] && CStrings(es)
    ensures CStringAt(Stringified(Flat(es), PATHSEP), 0) == if es[0] == "" then "" else Join(es)
  {
    if es[0] == "" {
      assert Flat(es)[0] == EOS && Stringified(Flat(es), PATHSEP)[0] == EOS;
    } else {
      ReadJoined(es);
    }
  }

  lemma PutAtCStrings(es: seq<string>, k: nat, dir: string)
    requires k <= |es| && CStrings(es) && CString(dir)
    ensures PutAt(es, k, dir) != [] && CStrings(PutAt(es, k, dir))
    ensures PutAt(es, k, dir)[0] == if k == 0 then dir else es[0]
  {
  }

  /** For every path and position: the new path is the entries with the directory among them. */
  lemma WithDirIs(path: string, before: Option<nat>, dir: string)
    requires CString(path) && CString(dir) && dir != ""
    requires before.Some? ==> before.value <= |Sep(path, PATHSEP)|
    ensures var es, k := PathEntries(path), Place(path, before);
            && k <= |es|
            && WithDir(path, before, dir) == if Lost(path, k) then "" else Join(PutAt(es, k, dir))
  {
    var es, k := PathEntries(path), Place(path, before);
    PathEntriesFacts(path);
    InsertedIs(path, before, dir);
    PutAtCStrings(es, k, dir);
    ReadBack(PutAt(es, k, dir));
  }

  /** Behind a path without an element the directory is lost. */
  ghost predicate Lost(path: string, k: nat) {
    Parts(path, PATHSEP) == [] && k > 0
  }

  /** lt_dlinsertsearchdir: the directory goes before the entry of the vector that the offset lies in. */
  lemma InsertDirBefore(path: string, i: nat, dir: string)
    requires CString(path) && Parts(path, PATHSEP) != [] && i <= |Sep(path, PATHSEP)|
    requires CString(dir) && dir != ""
    ensures var es, k := PathEntries(path), EntryIndex(Sep(path, PATHSEP), i);
            k <= |es| && WithDir(path, Some(i), dir) == Join(es[..k] + [dir] + es[k..])
  {
    WithDirIs(path, Some(i), dir);
  }

  ghost predicate AllNormal(es: seq<string>) {
    forall i | 0 <= i < |es| :: NormalForm(es[i])
  }

  ghost predicate Named(es: seq<string>) {
    forall i | 0 <= i < |es| :: es[i] != "" && CString(es[i])
  }

  lemma JoinCons(es: seq<string>)
    requires |es| >= 2
    ensures Join(es) == es[0] + ([PATHSEP] + Join(es[1..]))
  {
    assert Trail(es[1..]) == [PATHSEP] + Join(es[1..]);
  }

  /** A joined path is in normal form exactly when all that is joined is. */
  lemma {:induction false} JoinNormalForms(es: seq<string>)
    requires es != [] && Named(es)
    ensures CString(Join(es)) && Join(es) != "" && (NormalForm(Join(es)) <==> AllNormal(es))
  {
    var e, t := es[0], es[1..];
    if t == [] {
      assert Join(es) == e;
    } else {
      JoinNormalForms(t);
      JoinCons(es);
      PairsConcat(e, [PATHSEP] + Join(t));
      SeparatorBefore(Join(t));
      NormalCons(es);
    }
  }

  lemma NormalCons(es: seq<string>)
    requires es != []
    ensures AllNormal(es) <==> NormalForm(es[0]) && AllNormal(es[1..])
  {
    assert forall i | 0 < i < |es| :: es[i] == es[1..][i - 1];
  }

  lemma PutAtNormal(es: seq<string>, k: nat, dir: string)
    requires k <= |es| && Named(es) && AllNormal(es) && dir != "" && CString(dir)
    ensures Named(PutAt(es, k, dir)) && (AllNormal(PutAt(es, k, dir)) <==> NormalForm(dir))
  {
    assert PutAt(es, k, dir)[k] == dir;
  }

  /** At a position, too, a path stays in normal form exactly when the directory is in it. */
  lemma InsertDirNormalFormExactly(path: string, i: nat, dir: string)
    requires CString(path) && NormalForm(path) && path != "" && i <= |Sep(path, PATHSEP)|
    requires CString(dir) && dir != ""
    ensures NormalForm(WithDir(path, Some(i), dir)) <==> NormalForm(dir)
  {
    var es, k := PathEntries(path), Place(path, Some(i));
    NormalFormParts(path);
    PartsLackDelimiter(path, PATHSEP);
    JoinNormalForms(es);
    WithDirIs(path, Some(i), dir);
    PutAtNormal(es, k, dir);
    JoinNormalForms(PutAt(es, k, dir));
  }

  // ---------------------------------------------------------------------------------------
  // The elements of the new path
  // ---------------------------------------------------------------------------------------

  /** The elements of all these strings, in order. */
  ghost function AllParts(es: seq<string>): seq<string> {
    if es == [] then [] else Parts(es[0], PATHSEP) + AllParts(es[1..])
  }

  lemma {:induction false} PartsOfJoin(es: seq<string>)
    ensures Parts(Join(es), PATHSEP) == AllParts(es)
  {
    if |es| == 1 {
      assert Join(es) == es[0] && AllParts(es[1..]) == [];
    } else if |es| > 1 {
      PartsOfJoin(es[1..]);
      JoinCons(es);
      PartsConcat(es[0], Join(es[1..]));
    }
  }

  lemma {:induction false} AllPartsConcat(a: seq<string>, b: seq<string>)
    ensures AllParts(a + b) == AllParts(a) + AllParts(b)
  {
    if a == [] {
      assert a + b == b;
    } else {
      assert (a + b)[1..] == a[1..] + b;
      AllPartsConcat(a[1..], b);
      Assoc(Parts(a[0], PATHSEP), AllParts(a[1..]), AllParts(b));
    }
  }

  lemma {:induction false} AllPartsOfParts(ps: seq<string>)
    requires forall i | 0 <= i < |ps| :: ps[i] != "" && PATHSEP !in ps[i]
    ensures AllParts(ps) == ps && AllParts(ps + [""]) == ps
  {
    if ps == [] {
      assert ps + [""] == [""] && [""][1..] == [];
    } else {
      assert (ps + [""])[1..] == ps[1..] + [""];
      AllPartsOfParts(ps[1..]);
      PartsOfRun(ps[0], "", PATHSEP);
      assert ps[0] + "" == ps[0];
    }
  }

  lemma PutAtAllParts(es: seq<string>, k: nat, dir: string)
    requires k <= |es|
    ensures AllParts(PutAt(es, k, dir)) == AllParts(es[..k]) + Parts(dir, PATHSEP) + AllParts(es[k..])
  {
    AllPartsConcat(es[..k] + [dir], es[k..]);
    AllPartsConcat(es[..k], [dir]);
    assert [dir][1..] == [] && AllParts([dir]) == Parts(dir, PATHSEP) + [];
  }

  lemma CutParts(ps: seq<string>, es: seq<string>, k: nat, m: nat)
    requires forall i | 0 <= i < |ps| :: ps[i] != "" && PATHSEP !in ps[i]
    requires (es == ps || es == ps + [""]) && k <= |es| && m == if k < |ps| then k else |ps|
    ensures AllParts(es[..k]) == ps[..m] && AllParts(es[k..]) == ps[m..]
  {
    AllPartsOfParts(ps[..m]);
    AllPartsOfParts(ps[m..]);
    assert es[..k] == ps[..m] || es[..k] == ps[..m] + [""];
    assert es[k..] == ps[m..] || es[k..] == ps[m..] + [""];
  }

  /** The elements of the new path are the old ones with those of the directory among them. */
  lemma NewParts(path: string, before: Option<nat>, dir: string)
    requires CString(path) && CString(dir) && dir != ""
    requires before.Some? ==> before.value <= |Sep(path, PATHSEP)|
    requires !Lost(path, Place(path, before))
    ensures var ps, k := Parts(path, PATHSEP), Place(path, before);
            var m := if k < |ps| then k else |ps|;
            Parts(WithDir(path, before, dir), PATHSEP) == ps[..m] + Parts(dir, PATHSEP) + ps[m..]
  {
    var ps, es, k := Parts(path, PATHSEP), PathEntries(path), Place(path, before);
    WithDirIs(path, before, dir);
    PartsLackDelimiter(path, PATHSEP);
    assert ps + [] == ps;
    CutParts(ps, es, k, if k < |ps| then k else |ps|);
    PutAtAllParts(es, k, dir);
    PartsOfJoin(PutAt(es, k, dir));
  }

  /**
   lt_dladdsearchdir keeps every element and adds those of the new directory exactly when the path
   has an element already: behind a path of separators alone the directory is lost.
   */
  lemma AddDirExactly(path: string, dir: string)
    requires CString(path) && CString(dir) && Parts(dir, PATHSEP) != []
    ensures Parts(WithDir(path, None, dir), PATHSEP) == Parts(path, PATHSEP) + Parts(dir, PATHSEP) <==>
            Parts(path, PATHSEP) != []
  {
    if Parts(path, PATHSEP) != [] {
      AddedParts(path, dir);
    } else {
      PathEntriesFacts(path);
      WithDirIs(path, None, dir);
      assert WithDir(path, None, dir) == "";
    }
  }

  lemma AddedParts(path: string, dir: string)
    requires CString(path) && CString(dir) && dir != "" && Parts(path, PATHSEP) != []
    ensures Parts(WithDir(path, None, dir), PATHSEP) == Parts(path, PATHSEP) + Parts(dir, PATHSEP)
  {
    var ps := Parts(path, PATHSEP);
    NewParts(path, None, dir);
    assert ps[..|ps|] == ps && ps[|ps|..] == [];
  }

  /** How many of the first n characters are separators that the vector drops. */
  ghost function Folds(path: string, n: nat): (f: nat)
    requires n <= |path|
    ensures f <= n
  {
    if n == 0 then 0
    else Folds(path, n - 1) + if path[n - 1] == PATHSEP && (n == 1 || path[n - 2] == PATHSEP) then 1 else 0
  }

  /** The vector is what the first i characters leave, and what the rest gives. */
  lemma {:induction false} SepCut(path: string, i: nat) returns (w: string)
    requires i <= |path|
    ensures |w| == i - Folds(path, i)
    ensures Sep(path, PATHSEP) == w + SepFrom(path[i..], PATHSEP, i == 0 || path[i - 1] == PATHSEP)
  {
    if i == 0 {
      w := "";
      assert path[0..] == path && "" + Sep(path, PATHSEP) == Sep(path, PATHSEP);
    } else {
      var fold := i == 1 || path[i - 2] == PATHSEP;
      var v := SepCut(path, i - 1);
      SepStep(path, i - 1, PATHSEP, fold);
      var x := if path[i - 1] != PATHSEP then [path[i - 1]] else if fold then "" else [EOS];
      w := v + x;
      Assoc(v, x, SepFrom(path[i..], PATHSEP, path[i - 1] == PATHSEP));
    }
  }

  /** The vector has the characters of the path and a terminator, less the separators folded. */
  lemma VectorLength(path: string)
    ensures |Sep(path, PATHSEP)| == |path| + 1 - Folds(path, |path|)
  {
    var w := SepCut(path, |path|);
    assert path[|path|..] == "";
  }

  lemma {:induction false} SameEntry(b: string, m: nat, i: nat)
    requires m <= i <= |b| && forall j | m <= j < i :: b[j] != EOS
    ensures EntryStart(b, i) == EntryStart(b, m)
  {
    if m < i {
      SameEntry(b, m, i - 1);
    }
  }

  lemma LaterEntry(b: string, m: nat, p: nat, i: nat)
    requires m <= p < i <= |b| && b[p] == EOS
    ensures EntryIndex(b, i) > EntryIndex(b, m)
  {
    var s, t := EntryStart(b, m), EntryStart(b, i);
    if t <= p {
      EntryStartBefore(b, i, p);
    }
    IndexGrows(b, s, t);
  }

  lemma IndexGrows(b: string, s: nat, t: nat)
    requires s < t <= |b| && WellFormed(b[..s])
    ensures |Entries(b[..t])| > |Entries(b[..s])|
  {
    EntriesConcat(b[..s], b[s..t]);
    assert b[..t] == b[..s] + b[s..t];
  }

  /**
   The directory goes before the entry that holds the element pointed to exactly when what is left of
   that element is at least as long as the separators dropped before it are many.
   */
  lemma InsertDirExactly(path: string, i: nat)
    requires CString(path) && i < |path| && path[i] != PATHSEP
    ensures var b, m := Sep(path, PATHSEP), i - Folds(path, i);
            && m < |b| && b[m] == path[i]
            && (i <= |b| && EntryIndex(b, i) == EntryIndex(b, m) <==> Folds(path, i) <= Run(path[i..], PATHSEP))
  {
    var b, m, n := Sep(path, PATHSEP), i - Folds(path, i), Run(path[i..], PATHSEP);
    ElementInVector(path, i);
    if i <= m + n {
      SameEntry(b, m, i);
    } else if i <= |b| {
      LaterEntry(b, m, m + n, i);
    }
  }

  lemma ElementInVector(path: string, i: nat)
    requires CString(path) && i < |path| && path[i] != PATHSEP
    ensures var b, m, n := Sep(path, PATHSEP), i - Folds(path, i), Run(path[i..], PATHSEP);
            && 0 < n && m + n < |b| && b[m] == path[i] && b[m + n] == EOS
            && forall j | m <= j < m + n :: b[j] != EOS
  {
    var rest := path[i..];
    var n := Run(rest, PATHSEP);
    var w := SepCut(path, i);
    var fold := i == 0 || path[i - 1] == PATHSEP;
    SepRun(rest, PATHSEP, n, fold);
    assert SepFrom(rest[n..], PATHSEP, false)[0] == EOS;
    forall j | 0 <= j < n ensures SepFrom(rest, PATHSEP, fold)[j] == rest[j] != EOS {
      assert rest[..n][j] == rest[j] == path[i + j];
    }
  }

  /** Setting the path "a:/:/:b" leaves "a:::b", in which a directory put before b comes behind it. */
  lemma InsertBehindInstead(dir: string)
    requires CString(dir) && dir != ""
    ensures Canonical("a:/:/:b") == "a:::b"
    ensures WithDir("a:::b", Some(4), dir) == Join(["a", "b", dir])
  {
    TwoBlanksInside();
    FoldedVector();
    BehindBoth("a:::b", ['a', EOS, 'b', EOS], dir);
  }

  lemma BehindBoth(path: string, b: string, dir: string)
    requires CString(path) && CString(dir) && dir != "" && path != "" && path[|path| - 1] != PATHSEP
    requires Sep(path, PATHSEP) == b && Entries(b) == ["a", "b"] && |b| == 4 && b[3] == EOS
    ensures WithDir(path, Some(4), dir) == Join(["a", "b", dir])
  {
    SepEntries(path, PATHSEP);
    assert PathEntries(path) == Entries(b);
    assert EntryIndex(b, 4) == |Entries(b[..4])| && b[..4] == b;
    InsertDirBefore(path, 4, dir);
    assert ["a", "b"][..2] + [dir] + ["a", "b"][2..] == ["a", "b", dir];
  }

  lemma TwoBlanksInside()
    ensures Canonical("a:/:/:b") == "a:::b"
  {
    var s := "a:/:/:b";
    assert s[1..] == ":/:/:b" && s[1..][1..] == "/:/:b" && s[1..][1..][1..] == ":/:b";
    assert ":/:b"[1..] == "/:b" && "/:b"[1..] == ":b" && ":b"[1..] == "b" && "b"[1..] == "";
    assert Scan("b", true) == "b" && Scan(":b", true) == ":b" && Scan("/:b", true) == ":b";
    assert Scan(":/:b", true) == "::b" && Scan("/:/:b", true) == "::b" && Scan(":/:/:b", true) == ":::b";
  }

  lemma FoldedVector()
    ensures Sep("a:::b", PATHSEP) == ['a', EOS, 'b', EOS] && Entries(['a', EOS, 'b', EOS]) == ["a", "b"]
    ensures Folds("a:::b", 4) == 2
  {
    var path := "a:::b";
    assert path[1..] == ":::b" && ":::b"[1..] == "::b" && "::b"[1..] == ":b" && ":b"[1..] == "b";
    assert "b"[1..] == "";
    var es := ["a", "b"];
    assert es[1..] == ["b"] && ["b"][1..] == [];
    assert Flat(es) == ['a', EOS, 'b', EOS];
    EntriesOfFlat(es);
  }

  // ---------------------------------------------------------------------------------------
  // foreach_dirinpath
  // ---------------------------------------------------------------------------------------

  /** A directory with a file name appended. */
  function FileName(dir: string, base: string): string
    requires base != "" ==> dir != ""
  {
    if base == "" then dir
    else if dir[|dir| - 1] != DIRSEP then dir + [DIRSEP] + base
    else dir + base
  }

  ghost predicate Proper(es: seq<string>) {
    forall i | 0 <= i < |es| :: es[i] != ""
  }

  /** The directories of a path, as the vector lists them. */
  ghost function Dirs(path: string): seq<string> {
    Entries(Sep(Canonical(path), PATHSEP))
  }

  /** With a file name to append, the last character of an empty directory is looked for in front of the buffer. */
  predicate Outside(dir: string, base: string) {
    base != "" && dir == ""
  }

  /** The file names tried from the k-th directory on: up to the first that the callback takes. */
  ghost function Tried(dirs: seq<string>, k: nat, base: string, func: string -> int): seq<string>
    requires k <= |dirs|
    decreases |dirs| - k
  {
    if k == |dirs| || Outside(dirs[k], base) then []
    else if func(FileName(dirs[k], base)) != 0 then [FileName(dirs[k], base)]
    else [FileName(dirs[k], base)] + Tried(dirs, k + 1, base, func)
  }

  /** Whether the walk comes to a directory that makes it read outside the buffer. */
  ghost predicate ReadsOutside(dirs: seq<string>, k: nat, base: string, func: string -> int)
    requires k <= |dirs|
    decreases |dirs| - k
  {
    k < |dirs| &&
    (Outside(dirs[k], base) || (func(FileName(dirs[k], base)) == 0 && ReadsOutside(dirs, k + 1, base, func)))
  }

  /**
   foreach_dirinpath; the file names handed to func are recorded.  The walk is followed up to a read
   outside the buffer, if there is one.
   */
  method ForeachDirInPath(searchPath: Option<string>, base: string, func: string -> int)
      returns (result: int, tried: seq<string>, outside: bool)
    requires searchPath.Some? ==> CString(searchPath.value)
    ensures searchPath.None? || searchPath.value == "" ==> tried == [] && result == 0 && !outside
    ensures searchPath.Some? && searchPath.value != "" ==>
              && tried == Tried(Dirs(searchPath.value), 0, base, func)
              && outside == ReadsOutside(Dirs(searchPath.value), 0, base, func)
    ensures result == if tried == [] then 0 else func(tried[|tried| - 1])
  {
    result, tried, outside := 0, [], false;
    if searchPath.None? || |searchPath.value| == 0 {
      return;
    }
    var canonical, dest := CanonicalizePath(searchPath.value);
    ScanCString(searchPath.value, false);
    var block, len := CreateSep(canonical[..dest], PATHSEP);
    var argz := new Argz.Of(block, len);
    DirsWellFormed(searchPath.value);
    result, tried, outside := TryDirs(argz, base, func, Dirs(searchPath.value));
  }

  lemma DirsWellFormed(path: string)
    requires CString(path)
    ensures WellFormed(Sep(Canonical(path), PATHSEP))
  {
    ScanCString(path, false);
    var c := Canonical(path);
    SepEntries(c, PATHSEP);
    PartsLackDelimiter(c, PATHSEP);
    assert CStrings(Parts(c, PATHSEP) + LastEmpty(c, PATHSEP));
    EntriesOfFlat(Parts(c, PATHSEP) + LastEmpty(c, PATHSEP));
  }

  /** The loop of foreach_dirinpath over the vector. */
  method TryDirs(argz: Argz, base: string, func: string -> int, ghost dirs: seq<string>)
      returns (result: int, tried: seq<string>, outside: bool)
    requires WellFormed(argz.argz[..]) && dirs == Entries(argz.argz[..])
    ensures tried == Tried(dirs, 0, base, func) && outside == ReadsOutside(dirs, 0, base, func)
    ensures result == if tried == [] then 0 else func(tried[|tried| - 1])
  {
    result, tried, outside := 0, [], false;
    ghost var b := argz.argz[..];
    var dir := argz.Next(None);
    ghost var k := 0;
    NextStartsEntry(b, None, 0, dir);
    while dir.Some?
      invariant result == 0 && k <= |dirs| && (dir.None? ==> k == |dirs|) && (dir.Some? ==> At(b, dir.value, k))
      invariant Walked(dirs, k, base, func, tried)
      decreases |dirs| - k
    {
      var name := EntryText(argz, dir.value);
      assert name == dirs[k];
      WalkStep(dirs, k, base, func, tried);
      if name == "" && base != "" {
        return 0, tried, true;
      }
      var file := FileName(name, base);
      tried := tried + [file];
      result := func(file);
      if result != 0 {
        return;
      }
      ghost var before := dir;
      dir := argz.Next(dir);
      NextStartsEntry(b, before, k, dir);
      k := k + 1;
    }
  }

  /** The walk has come to directory k, and the callback took none of the names so far. */
  ghost predicate Walked(dirs: seq<string>, k: nat, base: string, func: string -> int, tried: seq<string>)
    requires k <= |dirs|
  {
    && Tried(dirs, 0, base, func) == tried + Tried(dirs, k, base, func)
    && ReadsOutside(dirs, 0, base, func) == ReadsOutside(dirs, k, base, func)
    && (tried != [] ==> func(tried[|tried| - 1]) == 0)
  }

  lemma WalkStep(dirs: seq<string>, k: nat, base: string, func: string -> int, tried: seq<string>)
    requires k < |dirs| && Walked(dirs, k, base, func, tried)
    ensures if Outside(dirs[k], base) then Tried(dirs, 0, base, func) == tried && ReadsOutside(dirs, 0, base, func)
            else if func(FileName(dirs[k], base)) != 0
            then Tried(dirs, 0, base, func) == tried + [FileName(dirs[k], base)] && !ReadsOutside(dirs, 0, base, func)
            else Walked(dirs, k + 1, base, func, tried + [FileName(dirs[k], base)])
  {
    if !Outside(dirs[k], base) {
      Assoc(tried, [FileName(dirs[k], base)], Tried(dirs, k + 1, base, func));
    }
  }

  /** Entry number k of the vector starts at an offset. */
  ghost predicate At(b: string, i: nat, k: nat) {
    i < |b| && StartsEntry(b, i, k) && k < |Entries(b)| && Entries(b)[k] == CStringAt(b, i)
  }

  /** The string at an offset of a vector. */
  method EntryText(argz: Argz, at: nat) returns (s: string)
    requires at < argz.argz.Length
    ensures s == CStringAt(argz.argz[..], at)
  {
    s := "";
    var i := at;
    while i < argz.argz.Length && argz.argz[i] != EOS
      invariant at <= i <= argz.argz.Length
      invariant s + CStringAt(argz.argz[..], i) == CStringAt(argz.argz[..], at)
    {
      Assoc(s, [argz.argz[i]], CStringAt(argz.argz[..], i + 1));
      s := s + [argz.argz[i]];
      i := i + 1;
    }
    assert s + "" == s;
  }

  /**
   The directories visited are the cleaned elements of the path that are left, in order, and after
   them an empty one if the canonical form is empty or ends in a separator.
   */
  lemma DirsExactly(path: string)
    requires CString(path)
    ensures Dirs(path) == NonEmpty(CleanAll(Parts(path, PATHSEP))) + LastEmpty(Canonical(path), PATHSEP)
  {
    ScanCString(path, false);
    SepEntries(Canonical(path), PATHSEP);
    CanonicalParts(path);
  }

  lemma {:induction false} NonEmptyClean(es: seq<string>, i: nat)
    requires i < |NonEmpty(es)| && forall j | 0 <= j < |es| :: CleanElement(es[j])
    ensures NonEmpty(es)[i] != "" && CleanElement(NonEmpty(es)[i])
  {
    if es[0] == "" {
      NonEmptyClean(es[1..], i);
    } else if i > 0 {
      NonEmptyClean(es[1..], i - 1);
    }
  }

  /** A directory that is left never ends in a slash, so one is always put in front of the file name. */
  lemma FileNamesTakeSlash(path: string, base: string, i: nat)
    requires CString(path) && base != "" && i < |NonEmpty(CleanAll(Parts(path, PATHSEP)))|
    ensures var dir := NonEmpty(CleanAll(Parts(path, PATHSEP)))[i];
            dir != "" && FileName(dir, base) == dir + [DIRSEP] + base
  {
    var ps := Parts(path, PATHSEP);
    var es := CleanAll(ps);
    PartsLackDelimiter(path, PATHSEP);
    forall j | 0 <= j < |es| ensures CleanElement(es[j]) {
      CleanIsClean(ps[j]);
    }
    NonEmptyClean(es, i);
    var dir := NonEmpty(es)[i];
    assert GoodPair(dir[|dir| - 1], Next(dir, |dir| - 1));
  }

  /**
   The names tried are the directories in order, each with a slash, unless it ends in one, and the file
   name behind it; all but the last are refused, and they are fewer than the directories only if the
   last is taken or the next directory is empty.
   */
  lemma {:induction false} TriedExactly(dirs: seq<string>, k: nat, base: string, func: string -> int,
                                        names: seq<string>)
    requires k <= |dirs| && names == Tried(dirs, k, base, func)
    ensures TriedFrom(dirs, k, base, func, names)
    decreases |dirs| - k
  {
    if k < |dirs| && !Outside(dirs[k], base) {
      var name, rest := FileName(dirs[k], base), Tried(dirs, k + 1, base, func);
      NameInDir(dirs[k], base);
      if func(name) == 0 {
        TriedExactly(dirs, k + 1, base, func, rest);
        TriedNext(dirs, k, base, func, name, rest);
      }
    }
  }

  ghost predicate TriedFrom(dirs: seq<string>, k: nat, base: string, func: string -> int, names: seq<string>)
    requires k <= |dirs|
  {
    && |names| <= |dirs| - k
    && (forall i | 0 <= i < |names| :: NameIn(names[i], dirs[k + i], base))
    && (forall i | 0 <= i < |names| - 1 :: func(names[i]) == 0)
    && (k + |names| < |dirs| ==>
          (names != [] && func(names[|names| - 1]) != 0) || (base != "" && dirs[k + |names|] == ""))
  }

  lemma TriedNext(dirs: seq<string>, k: nat, base: string, func: string -> int, name: string, rest: seq<string>)
    requires k < |dirs| && NameIn(name, dirs[k], base) && func(name) == 0 && TriedFrom(dirs, k + 1, base, func, rest)
    ensures TriedFrom(dirs, k, base, func, [name] + rest)
  {
    var names := [name] + rest;
    assert forall i | 1 <= i < |names| :: names[i] == rest[i - 1];
  }

  /** The name of the file in the directory, or that of the directory itself. */
  ghost predicate NameIn(name: string, dir: string, base: string) {
    if base == "" then name == dir
    else dir != "" && name == if dir[|dir| - 1] == '/' then dir + base else dir + "/" + base
  }

  lemma NameInDir(dir: string, base: string)
    requires !Outside(dir, base)
    ensures NameIn(FileName(dir, base), dir, base)
  {
  }

  // ---------------------------------------------------------------------------------------
  // Which searches read outside the buffer
  // ---------------------------------------------------------------------------------------

  lemma {:induction false} TrailEnds(es: seq<string>)
    requires es != [] && AllClean(es)
    ensures Trail(es) != "" && (Trail(es)[|Trail(es)| - 1] == PATHSEP <==> es[|es| - 1] == "")
  {
    if |es| == 1 {
      assert Trail(es[1..]) == "" && Trail(es) == [PATHSEP] + es[0];
      assert es[0] != "" ==> es[0][|es[0]| - 1] in es[0];
    } else {
      TrailEnds(es[1..]);
    }
  }

  lemma JoinEnds(es: seq<string>)
    requires es != [] && AllClean(es) && es[0] != ""
    ensures Join(es) != "" && (Join(es)[|Join(es)| - 1] == PATHSEP <==> es[|es| - 1] == "")
  {
    if |es| == 1 {
      assert Join(es) == es[0] && es[0][|es[0]| - 1] in es[0];
    } else {
      TrailEnds(es[1..]);
    }
  }

  ghost predicate EndBlank(ps: seq<string>) {
    ps == [] || Blank(ps[|ps| - 1])
  }

  /** Whether a path has no element, or ends in one made of slashes alone. */
  ghost predicate EndsBlank(path: string) {
    EndBlank(Parts(path, PATHSEP))
  }

  lemma CleanedParts(path: string)
    requires CString(path)
    ensures var ps := Parts(path, PATHSEP);
            AllClean(CleanAll(ps)) && forall i | 0 <= i < |ps| :: CleanAll(ps)[i] == "" <==> Blank(ps[i])
  {
    var ps := Parts(path, PATHSEP);
    PartsLackDelimiter(path, PATHSEP);
    forall i | 0 <= i < |ps|
      ensures CleanElement(Clean(ps[i])) && CString(Clean(ps[i])) && (Clean(ps[i]) == "" <==> Blank(ps[i]))
    {
      CleanIsClean(ps[i]);
      CleanCString(ps[i]);
    }
  }

  lemma JoinedEnds(es: seq<string>)
    requires AllClean(es)
    ensures LastEmpty(Join(DropEmptyFront(es)), PATHSEP) == if es == [] || es[|es| - 1] == "" then [""] else []
  {
    var k := DropEmptyFrontSuffix(es);
    if k < |es| {
      SuffixEnds(es, k);
      JoinEnds(es[k..]);
    }
  }

  lemma SuffixEnds(es: seq<string>, k: nat)
    requires AllClean(es) && k < |es|
    ensures AllClean(es[k..]) && es[k..] != [] && es[k..][0] == es[k] && es[k..][|es| - k - 1] == es[|es| - 1]
  {
    assert forall i | 0 <= i < |es[k..]| :: es[k..][i] == es[k + i];
  }

  /** The canonical form is empty or ends in a separator exactly for such paths. */
  lemma LastEmptyExactly(path: string)
    requires CString(path)
    ensures LastEmpty(Canonical(path), PATHSEP) == if EndsBlank(path) then [""] else []
  {
    CanonicalElements(path);
    CleanedParts(path);
    JoinedEnds(CleanAll(Parts(path, PATHSEP)));
  }

  /** No directory visited is empty exactly if the path does not end like that. */
  lemma ProperExactly(path: string)
    requires CString(path)
    ensures Proper(Dirs(path)) <==> !EndsBlank(path)
  {
    DirsExactly(path);
    LastEmptyExactly(path);
    NonEmptyProper(CleanAll(Parts(path, PATHSEP)));
    var ds := NonEmpty(CleanAll(Parts(path, PATHSEP)));
    if EndsBlank(path) {
      assert Dirs(path)[|ds|] == "";
    }
  }

  lemma {:induction false} NonEmptyProper(es: seq<string>)
    ensures Proper(NonEmpty(es))
  {
    if es != [] {
      NonEmptyProper(es[1..]);
    }
  }

  lemma {:induction false} ReadsOutsideLast(ds: seq<string>, last: seq<string>, k: nat, base: string,
                                            func: string -> int)
    requires Proper(ds) && k <= |ds| && base != "" && (last == [] || last == [""])
    ensures ReadsOutside(ds + last, k, base, func) <==>
            last == [""] && forall i | k <= i < |ds| :: func(FileName(ds[i], base)) == 0
    decreases |ds| - k
  {
    var dirs := ds + last;
    if k < |ds| {
      assert dirs[k] == ds[k];
      ReadsOutsideLast(ds, last, k + 1, base, func);
    }
  }

  /** None of the file names in the directories of a path is taken. */
  ghost predicate NoneTaken(path: string, base: string, func: string -> int)
    requires base != ""
  {
    var ds := NonEmpty(CleanAll(Parts(path, PATHSEP)));
    NonEmptyProper(CleanAll(Parts(path, PATHSEP)));
    forall i | 0 <= i < |ds| :: func(FileName(ds[i], base)) == 0
  }

  /**
   A search reads outside its buffer exactly when it has a file name, its path has no element or ends
   in one of slashes alone, and the file is not found before.
   */
  lemma ReadsOutsideExactly(path: string, base: string, func: string -> int)
    requires CString(path)
    ensures ReadsOutside(Dirs(path), 0, base, func) <==> base != "" && EndsBlank(path) && NoneTaken(path, base, func)
  {
    if base == "" {
      NeverOutside(Dirs(path), 0, func);
    } else {
      DirsExactly(path);
      LastEmptyExactly(path);
      NonEmptyProper(CleanAll(Parts(path, PATHSEP)));
      ReadsOutsideLast(NonEmpty(CleanAll(Parts(path, PATHSEP))), LastEmpty(Canonical(path), PATHSEP), 0, base, func);
    }
  }

  lemma {:induction false} NeverOutside(dirs: seq<string>, k: nat, func: string -> int)
    requires k <= |dirs|
    ensures !ReadsOutside(dirs, k, "", func)
    decreases |dirs| - k
  {
    if k < |dirs| {
      NeverOutside(dirs, k + 1, func);
    }
  }

  /** The search path "/" does so at once, whatever the file. */
  lemma RootReadsOutside(base: string, func: string -> int)
    requires base != ""
    ensures Dirs("/") == [""] && ReadsOutside(Dirs("/"), 0, base, func)
  {
    var path := "/";
    assert path[1..] == "";
    assert Canonical(path) == "";
    SepEntries("", PATHSEP);
  }

  // ---------------------------------------------------------------------------------------
  // Paths and directories at which adding goes wrong
  // ---------------------------------------------------------------------------------------

  /** Setting the path "/" leaves an empty one, and a directory added to that is lost. */
  lemma RootLosesDirectory(dir: string)
    requires CString(dir) && dir != ""
    ensures Canonical("/") == "" && WithDir("", None, dir) == ""
  {
    assert "/"[1..] == "";
    assert Sep("", PATHSEP) == [EOS];
    var b := Inserted(Sep("", PATHSEP), None, dir);
    assert b[0] == EOS && Stringified(b, PATHSEP)[0] == EOS;
  }

  /** A directory that ends in a slash leaves the path out of normal form. */
  lemma SlashSpoilsPath()
    ensures WithDir("usr", None, "lib/") == "usr:lib/" && !NormalForm("usr:lib/")
  {
    var path, dir := "usr", "lib/";
    assert NormalForm(path) by {
      assert forall i | 0 <= i < |path| :: path[i] != PATHSEP && path[i] != DIRSEP;
    }
    AddDirNormalFormExactly(path, dir);
    assert !GoodPair(dir[3], Next(dir, 3));
  }
}
