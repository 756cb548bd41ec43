/**
 Runs of the user search path: it is set, and directories are added and inserted, in any order.

 The claim is about the search that reads in front of its buffer: setting a path never leads to it,
 adding or inserting a directory can.
 */
module SearchPathRuns {
  import opened Basics
  import opened Paths
  import opened ArgzVectors
  import opened SearchPaths

  datatype Event =
    | Setting(searchPath: Option<string>)
    | Putting(before: Option<nat>, dir: Option<string>)

  ghost predicate Readable(e: Event) {
    var text := if e.Setting? then e.searchPath else e.dir;
    text.Some? ==> CString(text.value)
  }

  /** The insertions at which the model stops lie behind the vector. */
  ghost predicate Permitted(p: Option<string>, e: Event) {
    Readable(e) && (e.Putting? ==> !Behind(p, e.before, Text(e.dir)))
  }

  ghost function Step(p: Option<string>, e: Event): Option<string>
    requires Permitted(p, e)
  {
    match e
    case Setting(s) => if s.None? || s.value == "" then None else Some(Canonical(s.value))
    case Putting(before, dir) => Put(p, before, Text(dir))
  }

  /** Event i leads from the path before it to the one after it. */
  ghost predicate Leads(ps: seq<Option<string>>, es: seq<Event>, i: nat) {
    i < |es| && i + 1 < |ps| && Permitted(ps[i], es[i]) && ps[i + 1] == Step(ps[i], es[i])
  }

  ghost predicate Run(ps: seq<Option<string>>, es: seq<Event>) {
    |ps| == |es| + 1 && ps[0] == None && forall i: nat | i < |es| :: Leads(ps, es, i)
  }

  // ---------------------------------------------------------------------------------------
  // One event
  // ---------------------------------------------------------------------------------------

  /** A search over the user path reads outside its buffer; an empty path is not walked at all. */
  ghost predicate SearchOutside(p: Option<string>, base: string, func: string -> int) {
    p.Some? && p.value != "" && ReadsOutside(Dirs(p.value), 0, base, func)
  }

  /** The path has no element, or ends in one made of slashes alone, and is not empty. */
  ghost predicate Harmful(p: Option<string>) {
    p.Some? && p.value != "" && EndsBlank(p.value)
  }

  lemma OutsideIfHarmful(p: Option<string>, base: string, func: string -> int)
    requires p.Some? ==> CString(p.value)
    ensures SearchOutside(p, base, func) <==> base != "" && Harmful(p) && NoneTaken(p.value, base, func)
  {
    if p.Some? {
      ReadsOutsideExactly(p.value, base, func);
    }
  }

  /** A path that was set is not harmful, whatever it was set to. */
  lemma SetIsHarmless(s: string)
    requires CString(s)
    ensures !Harmful(Some(Canonical(s)))
  {
    var es := CleanAll(Parts(s, PATHSEP));
    CanonicalParts(s);
    CanonicalElements(s);
    CleanedParts(s);
    NonEmptyAfterDrop(es);
    var k := DropEmptyFrontSuffix(es);
    if NonEmpty(es) != [] {
      LastNotBlank(es);
    } else {
      assert k == |es|;
    }
  }

  /** So no search over it reads outside its buffer. */
  lemma SetIsSafe(s: string, base: string, func: string -> int)
    requires CString(s)
    ensures !SearchOutside(Some(Canonical(s)), base, func)
  {
    ScanCString(s, false);
    SetIsHarmless(s);
    OutsideIfHarmful(Some(Canonical(s)), base, func);
  }

  lemma LastNotBlank(es: seq<string>)
    requires AllClean(es) && NonEmpty(es) != []
    ensures !Blank(NonEmpty(es)[|NonEmpty(es)| - 1])
  {
    NonEmptyClean(es, |NonEmpty(es)| - 1);
    var e := NonEmpty(es)[|NonEmpty(es)| - 1];
    assert GoodPair(e[|e| - 1], Next(e, |e| - 1));
  }

  lemma EndOfConcat(a: seq<string>, b: seq<string>)
    ensures EndBlank(a + b) <==> if b == [] then EndBlank(a) else EndBlank(b)
  {
    assert b == [] ==> a + b == a;
  }

  /** A directory put at entry k gives the path its own end. */
  ghost predicate TakesEnd(p: string, k: nat, dir: string) {
    var ps := Parts(p, PATHSEP);
    if ps == [] then k == 0 else k >= |ps| && Parts(dir, PATHSEP) != []
  }

  lemma EndOfNewParts(ps: seq<string>, k: nat, ds: seq<string>)
    ensures var m := if k < |ps| then k else |ps|;
            EndBlank(ps[..m] + ds + ps[m..]) <==> if k < |ps| || ds == [] then EndBlank(ps) else EndBlank(ds)
  {
    var m := if k < |ps| then k else |ps|;
    EndOfConcat(ps[..m] + ds, ps[m..]);
    EndOfConcat(ps[..m], ds);
    assert m == |ps| ==> ps[..m] == ps;
  }

  /** What putting a directory into a path makes of its end. */
  lemma PutEnds(p: string, before: Option<nat>, dir: string, k: nat, q: string)
    requires CString(p) && CString(dir) && dir != "" && (before.Some? ==> before.value <= |Sep(p, PATHSEP)|)
    requires k == Place(p, before) && q == WithDir(p, before, dir)
    ensures Lost(p, k) ==> q == ""
    ensures !Lost(p, k) ==> q != "" && (EndsBlank(q) <==> if TakesEnd(p, k, dir) then EndsBlank(dir) else EndsBlank(p))
  {
    WithDirIs(p, before, dir);
    PathEntriesFacts(p);
    if !Lost(p, k) {
      NewParts(p, before, dir);
      EndOfNewParts(Parts(p, PATHSEP), k, Parts(dir, PATHSEP));
      assert PutAt(PathEntries(p), k, dir)[0] != "";
    }
  }

  // ---------------------------------------------------------------------------------------
  // Over runs
  // ---------------------------------------------------------------------------------------

  /** The event puts a directory into the path. */
  ghost predicate Puts(p: Option<string>, e: Event) {
    e.Putting? && Text(e.dir) != "" && !Misplaced(p, e.before) && !Behind(p, e.before, Text(e.dir))
  }

  /** It gives the path a new end, that of the directory. */
  ghost predicate NewEnd(p: Option<string>, e: Event)
    requires Puts(p, e)
  {
    p.Some? ==> TakesEnd(p.value, Place(p.value, e.before), Text(e.dir))
  }

  /** A directory that is blank at its end becomes the end of the path. */
  ghost predicate Spoils(p: Option<string>, e: Event) {
    Puts(p, e) && NewEnd(p, e) && EndsBlank(Text(e.dir))
  }

  /** The path is set, gets another end, or is lost. */
  ghost predicate Mends(p: Option<string>, e: Event) {
    e.Setting? ||
    (Puts(p, e) && if NewEnd(p, e) then !EndsBlank(Text(e.dir)) else Lost(p.value, Place(p.value, e.before)))
  }

  lemma StepHarm(p: Option<string>, e: Event)
    requires Permitted(p, e) && (p.Some? ==> CString(p.value))
    ensures Harmful(Step(p, e)) <==> Spoils(p, e) || (Harmful(p) && !Mends(p, e))
  {
    if e.Setting? {
      if e.searchPath.Some? {
        SetIsHarmless(e.searchPath.value);
      }
    } else if p.Some? && Puts(p, e) {
      PutEnds(p.value, e.before, Text(e.dir), Place(p.value, e.before), WithDir(p.value, e.before, Text(e.dir)));
    }
  }

  lemma {:induction false} ReadIsCString(b: string, i: nat)
    requires i <= |b|
    ensures CString(CStringAt(b, i))
    decreases |b| - i
  {
    if i < |b| && b[i] != EOS {
      ReadIsCString(b, i + 1);
    }
  }

  lemma StepReadable(p: Option<string>, e: Event)
    requires Permitted(p, e) && (p.Some? ==> CString(p.value))
    ensures Step(p, e).Some? ==> CString(Step(p, e).value)
  {
    if e.Setting? {
      if e.searchPath.Some? {
        ScanCString(e.searchPath.value, false);
      }
    } else if p.Some? && Puts(p, e) {
      ReadIsCString(Stringified(Inserted(Sep(p.value, PATHSEP), e.before, Text(e.dir)), PATHSEP), 0);
    }
  }

  lemma {:induction false} RunReadable(ps: seq<Option<string>>, es: seq<Event>, n: nat)
    requires Run(ps, es) && n < |ps|
    ensures ps[n].Some? ==> CString(ps[n].value)
  {
    if n > 0 {
      RunReadable(ps, es, n - 1);
      assert Leads(ps, es, n - 1);
      StepReadable(ps[n - 1], es[n - 1]);
    }
  }

  ghost function Spoiling(ps: seq<Option<string>>, es: seq<Event>): nat -> bool {
    (i: nat) => i < |ps| && i < |es| && Spoils(ps[i], es[i])
  }

  ghost function Mending(ps: seq<Option<string>>, es: seq<Event>): nat -> bool {
    (i: nat) => i < |ps| && i < |es| && Mends(ps[i], es[i])
  }

  /** In every run the path is harmful exactly when it was spoilt and nothing has mended it since. */
  lemma {:induction false} HarmfulExactly(ps: seq<Option<string>>, es: seq<Event>, n: nat)
    requires Run(ps, es) && n < |ps|
    ensures Harmful(ps[n]) <==> Stands(Spoiling(ps, es), Mending(ps, es), n)
  {
    if n > 0 {
      HarmfulExactly(ps, es, n - 1);
      RunReadable(ps, es, n - 1);
      assert Leads(ps, es, n - 1);
      StepHarm(ps[n - 1], es[n - 1]);
      StandsNext(Spoiling(ps, es), Mending(ps, es), n - 1);
    }
  }

  /**
   After any events a search over the user path reads outside its buffer exactly when it has a file
   name, the path was spoilt and not mended since, and no directory in it holds the file.
   */
  lemma SearchOutsideExactly(ps: seq<Option<string>>, es: seq<Event>, n: nat, base: string, func: string -> int)
    requires Run(ps, es) && n < |ps|
    ensures SearchOutside(ps[n], base, func) <==>
            && base != "" && Stands(Spoiling(ps, es), Mending(ps, es), n)
            && ps[n].Some? && NoneTaken(ps[n].value, base, func)
  {
    RunReadable(ps, es, n);
    OutsideIfHarmful(ps[n], base, func);
    HarmfulExactly(ps, es, n);
  }

  /** While only directories are put in that do not end blank, no search does so. */
  lemma SoundDirectoriesAreSafe(ps: seq<Option<string>>, es: seq<Event>, n: nat, base: string, func: string -> int)
    requires Run(ps, es) && n < |ps|
    requires forall i | 0 <= i < |es| && es[i].Putting? :: Text(es[i].dir) == "" || !EndsBlank(Text(es[i].dir))
    ensures !SearchOutside(ps[n], base, func)
  {
    SearchOutsideExactly(ps, es, n, base, func);
    assert forall i: nat :: !Spoiling(ps, es)(i);
  }

  // ---------------------------------------------------------------------------------------
  // A run that goes wrong
  // ---------------------------------------------------------------------------------------

  lemma SlashAdded()
    ensures Canonical("usr") == "usr" && WithDir("usr", None, "/") == "usr:/"
  {
    var path := "usr";
    assert NormalForm(path) by {
      assert forall i | 0 <= i < |path| :: path[i] != PATHSEP && path[i] != DIRSEP;
    }
    NormalFormsAreFixed(path);
    AddDirNormalFormExactly(path, "/");
  }

  lemma SlashParts()
    ensures Parts("usr:/", PATHSEP) == ["usr", "/"]
  {
    assert "usr:/" == "usr" + ":/" && ":/"[1..] == "/" && "/" + "" == "/";
    PartsOfRun("/", "", PATHSEP);
    PartsOfRun("usr", ":/", PATHSEP);
  }

  lemma SlashCleaned(ps: seq<string>)
    requires ps == ["usr", "/"]
    ensures NonEmpty(CleanAll(ps)) == ["usr"] && Blank(ps[1])
  {
    assert "usr"[1..] == "sr" && "sr"[1..] == "r" && "r"[1..] == "" && "/"[1..] == "";
    var es := CleanAll(ps);
    assert es[0] == "usr" && es[1] == "";
    assert es[1..] == [""] && [""][1..] == [];
  }

  lemma SlashHarms(p: string, base: string, func: string -> int)
    requires base != "" && p == "usr:/"
    ensures SearchOutside(Some(p), base, func) <==> func(FileName("usr", base)) == 0
  {
    var ps := Parts(p, PATHSEP);
    SlashParts();
    SlashCleaned(ps);
    OutsideIfHarmful(Some(p), base, func);
    OneTaken(p, "usr", base, func);
  }

  lemma OneTaken(p: string, dir: string, base: string, func: string -> int)
    requires base != "" && dir != "" && NonEmpty(CleanAll(Parts(p, PATHSEP))) == [dir]
    ensures NoneTaken(p, base, func) <==> func(FileName(dir, base)) == 0
  {
    assert NonEmpty(CleanAll(Parts(p, PATHSEP)))[0] == dir;
  }

  /** The path is set to "usr" and "/" is added: a search reads outside exactly when "usr" does not hold the file. */
  lemma SlashRun(base: string, func: string -> int)
    requires base != ""
    ensures Run([None, Some("usr"), Some("usr:/")], [Setting(Some("usr")), Putting(None, Some("/"))])
    ensures SearchOutside(Some("usr:/"), base, func) <==> func(FileName("usr", base)) == 0
  {
    SlashAdded();
    var ps, es := [None, Some("usr"), Some("usr:/")], [Setting(Some("usr")), Putting(None, Some("/"))];
    assert Leads(ps, es, 0) && Leads(ps, es, 1);
    SlashHarms("usr:/", base, func);
  }
}
