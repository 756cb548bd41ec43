/**
 Search paths of libltdl: canonicalize_path and what it makes of the elements of a path.

 The path separator is ':' and '/' is the only directory separator, as on every system that is not
 Windows.
 */
module Paths {
  import opened Basics

  const PATHSEP := ':'
  const DIRSEP := '/'

  // ---------------------------------------------------------------------------------------
  // The elements of a path
  // ---------------------------------------------------------------------------------------

  /** The length of the leading stretch without delimiter. */
  ghost function Run(s: string, delim: char): (n: nat)
    ensures n <= |s|
    ensures forall i | 0 <= i < n :: s[i] != delim
    ensures n < |s| ==> s[n] == delim
  {
    if s == "" || s[0] == delim then 0
    else
      var n := Run(s[1..], delim);
      assert forall i | 1 <= i < n + 1 :: s[i] == s[1..][i - 1];
      n + 1
  }

  /** The non-empty pieces between delimiters. */
  ghost function Parts(s: string, delim: char): seq<string>
    decreases |s|
  {
    if s == "" then []
    else if s[0] == delim then Parts(s[1..], delim)
    else [s[..Run(s, delim)]] + Parts(s[Run(s, delim)..], delim)
  }

  /** The pieces, each preceded by the separator. */
  ghost function Trail(es: seq<string>): string {
    if es == [] then "" else [PATHSEP] + es[0] + Trail(es[1..])
  }

  ghost function Join(es: seq<string>): string {
    if es == [] then "" else es[0] + Trail(es[1..])
  }

  /** The character after position i, EOS at the end. */
  ghost function Next(s: string, i: nat): char
    requires i < |s|
  {
    if i + 1 < |s| then s[i + 1] else EOS
  }

  /** Within an element a slash survives only in front of another kind of character. */
  ghost predicate Survives(c: char, next: char) {
    c == DIRSEP ==> next != DIRSEP && next != EOS
  }

  ghost function Clean(e: string): string {
    if e == "" then ""
    else (if Survives(e[0], Next(e, 0)) then [e[0]] else "") + Clean(e[1..])
  }

  ghost function CleanAll(es: seq<string>): (r: seq<string>)
    ensures |r| == |es|
    ensures forall i | 0 <= i < |es| :: r[i] == Clean(es[i])
  {
    if es == [] then [] else [Clean(es[0])] + CleanAll(es[1..])
  }

  ghost function DropEmptyFront(es: seq<string>): seq<string> {
    if es != [] && es[0] == "" then DropEmptyFront(es[1..]) else es
  }

  ghost function NonEmpty(es: seq<string>): seq<string> {
    if es == [] then [] else (if es[0] == "" then [] else [es[0]]) + NonEmpty(es[1..])
  }

  ghost predicate Blank(e: string) {
    forall i | 0 <= i < |e| :: e[i] == DIRSEP
  }

  /** No element made of slashes alone comes after an element with another character. */
  ghost predicate BlanksLead(es: seq<string>) {
    forall i, j | 0 <= i < j < |es| :: Blank(es[j]) ==> Blank(es[i])
  }

  /** Neighbours allowed in a normal form: after ':' neither ':' nor the end, after '/' also no '/'. */
  ghost predicate GoodPair(c: char, d: char) {
    && (c == PATHSEP ==> d != PATHSEP && d != EOS)
    && (c == DIRSEP ==> d != PATHSEP && d != EOS && d != DIRSEP)
  }

  ghost predicate TailOk(s: string) {
    forall i | 0 <= i < |s| :: GoodPair(s[i], Next(s, i))
  }

  /** No empty element, no doubled slash, no element that ends in a slash. */
  ghost predicate NormalForm(s: string) {
    TailOk(s) && (s != "" ==> s[0] != PATHSEP)
  }

  // ---------------------------------------------------------------------------------------
  // canonicalize_path
  // ---------------------------------------------------------------------------------------

  /** Whether the scan copies c, given the next character and whether anything is written yet. */
  predicate Copied(c: char, next: char, started: bool) {
    if c == PATHSEP then !(!started || next == PATHSEP || next == EOS)
    else if c != DIRSEP then true
    else next != PATHSEP && next != EOS && next != DIRSEP
  }

  /** What the scan writes from here on. */
  ghost function Scan(s: string, started: bool): string {
    if s == "" then ""
    else if Copied(s[0], Next(s, 0), started) then [s[0]] + Scan(s[1..], true)
    else Scan(s[1..], started)
  }

  ghost function Canonical(s: string): string {
    Scan(s, false)
  }

  lemma ScanStep(s: string, i: nat, started: bool)
    requires i < |s|
    ensures Scan(s[i..], started) ==
            if Copied(s[i], Next(s, i), started) then [s[i]] + Scan(s[i + 1..], true)
            else Scan(s[i + 1..], started)
  {
    assert s[i..][0] == s[i] && s[i..][1..] == s[i + 1..];
    assert Next(s[i..], 0) == Next(s, i);
  }

  method CanonicalizePath(path: string) returns (canonical: array<char>, dest: nat)
    requires path != ""
    ensures fresh(canonical) && canonical.Length == 1 + |path|
    ensures dest < canonical.Length && canonical[dest] == EOS
    ensures canonical[..dest] == Canonical(path)
  {
    canonical := new char[1 + |path|];
    dest := 0;
    var src := 0;
    while src != |path|
      invariant dest <= src <= |path|
      invariant canonical[..dest] + Scan(path[src..], dest != 0) == Canonical(path)
    {
      var next := if src + 1 < |path| then path[src + 1] else EOS;
      ScanStep(path, src, dest != 0);
      if path[src] == PATHSEP {
        if dest == 0 || next == PATHSEP || next == EOS {
          src := src + 1;
          continue;
        }
      }
      if path[src] != DIRSEP {
        canonical[dest] := path[src];
        dest := dest + 1;
        assert canonical[..dest] == canonical[..dest - 1] + [path[src]];
      } else if next != PATHSEP && next != EOS && next != DIRSEP {
        canonical[dest] := DIRSEP;
        dest := dest + 1;
        assert canonical[..dest] == canonical[..dest - 1] + [path[src]];
      }
      src := src + 1;
    }
    assert canonical[..dest] + "" == canonical[..dest];
    canonical[dest] := EOS;
  }

  // ---------------------------------------------------------------------------------------
  // The scan against the elements
  // ---------------------------------------------------------------------------------------

  /** The pieces with separators only once something has been written. */
  ghost function JoinFrom(es: seq<string>, started: bool): string {
    if es == [] then ""
    else (if started then [PATHSEP] else "") + es[0] + JoinFrom(es[1..], started || es[0] != "")
  }

  /** Inside an element the scan copies what survives cleaning. */
  lemma RunHead(s: string, n: nat, started: bool)
    requires CString(s) && 0 < n == Run(s, PATHSEP)
    ensures Survives(s[..n][0], Next(s[..n], 0)) == Copied(s[0], Next(s, 0), started)
  {
    assert Next(s[..n], 0) == if n > 1 then s[1] else EOS;
  }

  /** A leading element is cleaned and the scan goes on behind it. */
  lemma {:induction false} ScanRun(s: string, n: nat, started: bool)
    requires CString(s) && n == Run(s, PATHSEP)
    ensures Scan(s, started) == Clean(s[..n]) + Scan(s[n..], started || Clean(s[..n]) != "")
  {
    if n > 0 {
      var e, t, r := s[..n], s[1..], s[n..];
      assert t[..n - 1] == e[1..] && t[n - 1..] == r;
      RunHead(s, n, started);
      var keep := Survives(e[0], Next(e, 0));
      var head := if keep then [s[0]] else "";
      ScanRun(t, n - 1, started || keep);
      CleanCons(e);
      var flag := started || Clean(e) != "";
      assert Scan(s, started) == head + Scan(t, started || keep);
      assert Scan(t, started || keep) == Clean(e[1..]) + Scan(r, flag);
      Assoc(head, Clean(e[1..]), Scan(r, flag));
    } else {
      assert s[..0] == "" && s[0..] == s;
    }
  }

  lemma CleanCons(e: string)
    requires e != ""
    ensures Clean(e) == (if Survives(e[0], Next(e, 0)) then [e[0]] else "") + Clean(e[1..])
  {
  }

  /** A stretch of separators becomes one, unless nothing precedes or nothing follows it. */
  lemma {:induction false} ScanSeparators(s: string, started: bool)
    requires CString(s) && (s == "" || s[0] == PATHSEP)
    ensures Scan(s, started) == JoinFrom(CleanAll(Parts(s, PATHSEP)), started)
    decreases |s|, 0
  {
    if s != "" {
      var t := s[1..];
      if t != "" && t[0] != PATHSEP {
        ScanElement(t, started);
      } else {
        ScanSeparators(t, started);
      }
    }
  }

  lemma {:induction false} ScanElement(s: string, started: bool)
    requires CString(s) && s != "" && s[0] != PATHSEP
    ensures var es := CleanAll(Parts(s, PATHSEP));
            es != [] && Scan(s, started) == es[0] + JoinFrom(es[1..], started || es[0] != "")
    decreases |s|, 0
  {
    var n := Run(s, PATHSEP);
    ScanRun(s, n, started);
    var rest := s[n..];
    ScanSeparators(rest, started || Clean(s[..n]) != "");
    assert CleanAll(Parts(s, PATHSEP))[1..] == CleanAll(Parts(rest, PATHSEP));
  }

  lemma {:induction false} JoinFromIsJoin(es: seq<string>)
    ensures JoinFrom(es, true) == Trail(es)
    ensures JoinFrom(es, false) == Join(DropEmptyFront(es))
  {
    if es != [] {
      JoinFromIsJoin(es[1..]);
    }
  }

  /** For every path: the cleaned elements joined by ':', less the empty ones in front. */
  lemma CanonicalElements(s: string)
    requires CString(s)
    ensures Canonical(s) == Join(DropEmptyFront(CleanAll(Parts(s, PATHSEP))))
  {
    if s == "" || s[0] == PATHSEP {
      ScanSeparators(s, false);
    } else {
      ScanElement(s, false);
    }
    JoinFromIsJoin(CleanAll(Parts(s, PATHSEP)));
  }

  // ---------------------------------------------------------------------------------------
  // Normal form
  // ---------------------------------------------------------------------------------------

  ghost predicate CleanElement(e: string) {
    TailOk(e) && PATHSEP !in e
  }

  lemma TailOkCons(s: string)
    requires s != ""
    ensures TailOk(s) <==> GoodPair(s[0], Next(s, 0)) && TailOk(s[1..])
  {
    var t := s[1..];
    assert forall i | 0 <= i < |t| :: t[i] == s[i + 1] && Next(t, i) == Next(s, i + 1);
    if GoodPair(s[0], Next(s, 0)) && TailOk(t) {
      forall i | 0 <= i < |s| ensures GoodPair(s[i], Next(s, i)) {
        if i > 0 { assert t[i - 1] == s[i]; }
      }
    }
  }

  /** A blank element cleans to nothing; any other keeps its first character and becomes clean. */
  lemma {:induction false} CleanIsClean(e: string)
    requires CString(e) && PATHSEP !in e
    ensures CleanElement(Clean(e))
    ensures Clean(e) == "" <==> Blank(e)
    ensures !Blank(e) && e[0] != DIRSEP ==> Clean(e)[0] == e[0]
  {
    if e != "" {
      var t := e[1..];
      CleanIsClean(t);
      CleanCons(e);
      BlankCons(e);
      if Survives(e[0], Next(e, 0)) {
        assert Clean(e)[1..] == Clean(t);
        TailOkCons(Clean(e));
        assert e[0] == DIRSEP ==> t != "" && t[0] == e[1] && t[0] in e;
      }
    }
  }

  lemma BlankCons(e: string)
    requires e != ""
    ensures Blank(e) <==> e[0] == DIRSEP && Blank(e[1..])
  {
    var t := e[1..];
    assert forall i | 0 <= i < |t| :: t[i] == e[i + 1];
    if e[0] == DIRSEP && Blank(t) {
      forall i | 0 <= i < |e| ensures e[i] == DIRSEP {
        if i > 0 { assert t[i - 1] == e[i]; }
      }
    }
  }

  lemma {:induction false} PairsConcat(a: string, b: string)
    requires a != "" && (b == "" || b[0] == PATHSEP)
    ensures TailOk(a + b) <==> TailOk(a) && TailOk(b)
  {
    var s := a + b;
    TailOkCons(s);
    TailOkCons(a);
    assert s[1..] == a[1..] + b;
    if |a| > 1 {
      PairsConcat(a[1..], b);
    } else {
      assert a[1..] + b == b;
    }
  }

  /** A separator may be put in front of anything that neither is empty nor starts with one. */
  lemma SeparatorBefore(b: string)
    requires CString(b)
    ensures TailOk([PATHSEP] + b) <==> b != "" && b[0] != PATHSEP && TailOk(b)
  {
    TailOkCons([PATHSEP] + b);
    assert ([PATHSEP] + b)[1..] == b;
  }

  ghost predicate AllClean(es: seq<string>) {
    forall i | 0 <= i < |es| :: CleanElement(es[i]) && CString(es[i])
  }

  ghost predicate NoneEmpty(es: seq<string>) {
    forall i | 0 <= i < |es| :: es[i] != ""
  }

  lemma NoneEmptyCons(es: seq<string>)
    requires es != []
    ensures NoneEmpty(es) <==> es[0] != "" && NoneEmpty(es[1..])
  {
    assert forall i | 0 <= i < |es[1..]| :: es[1..][i] == es[i + 1];
    if es[0] != "" && NoneEmpty(es[1..]) {
      forall i | 0 <= i < |es| ensures es[i] != "" {
        if i > 0 { assert es[1..][i - 1] == es[i]; }
      }
    }
  }

  lemma {:induction false} TrailNormal(es: seq<string>)
    requires AllClean(es)
    ensures TailOk(Trail(es)) <==> NoneEmpty(es)
    ensures CString(Trail(es)) && (Trail(es) != "" ==> Trail(es)[0] == PATHSEP)
    decreases es, 1
  {
    if es != [] {
      var b := Join(es);
      assert Trail(es) == [PATHSEP] + b;
      TrailNormal(es[1..]);
      JoinNormal(es);
      SeparatorBefore(b);
      if es[0] == "" {
        assert b == Trail(es[1..]);
      }
    }
  }

  lemma {:induction false} JoinNormal(es: seq<string>)
    requires AllClean(es)
    ensures CString(Join(es))
    ensures es != [] && es[0] != "" ==> Join(es) != "" && Join(es)[0] != PATHSEP
    ensures es != [] && es[0] != "" ==> (TailOk(Join(es)) <==> NoneEmpty(es))
    decreases es, 0
  {
    if es != [] {
      var e, t := es[0], Trail(es[1..]);
      TrailNormal(es[1..]);
      if e != "" {
        PairsConcat(e, t);
        NoneEmptyCons(es);
        assert (e + t)[0] == e[0] && e[0] in e;
      }
    }
  }

  lemma {:induction false} PartsLackDelimiter(s: string, delim: char)
    requires CString(s)
    ensures forall i | 0 <= i < |Parts(s, delim)| ::
              var e := Parts(s, delim)[i]; e != "" && delim !in e && CString(e)
    decreases |s|
  {
    if s != "" {
      if s[0] == delim {
        PartsLackDelimiter(s[1..], delim);
      } else {
        PartsLackDelimiter(s[Run(s, delim)..], delim);
      }
    }
  }

  lemma {:induction false} DropEmptyFrontSuffix(es: seq<string>) returns (k: nat)
    ensures k <= |es| && DropEmptyFront(es) == es[k..]
    ensures forall i | 0 <= i < k :: es[i] == ""
    ensures k < |es| ==> es[k] != ""
  {
    if es != [] && es[0] == "" {
      k := DropEmptyFrontSuffix(es[1..]);
      assert es[1..][k..] == es[k + 1..];
      k := k + 1;
    } else {
      k := 0;
    }
  }

  /** The result is in normal form exactly when all-slash elements only lead the path. */
  lemma NormalFormExactly(s: string)
    requires CString(s)
    ensures NormalForm(Canonical(s)) <==> BlanksLead(Parts(s, PATHSEP))
  {
    var ps := Parts(s, PATHSEP);
    var es := CleanAll(ps);
    CanonicalElements(s);
    PartsLackDelimiter(s, PATHSEP);
    forall i | 0 <= i < |es| ensures CleanElement(es[i]) && CString(es[i]) && (es[i] == "" <==> Blank(ps[i])) {
      CleanIsClean(ps[i]);
      CleanCString(ps[i]);
    }
    var k := DropEmptyFrontSuffix(es);
    JoinNormal(es[k..]);
    if NoneEmpty(es[k..]) {
      forall j | k <= j < |es| ensures es[j] != "" {
        assert es[k..][j - k] == es[j];
      }
    }
    if BlanksLead(ps) && k < |es| {
      forall i | 0 <= i < |es[k..]| ensures es[k..][i] != "" {
        assert es[k..][i] == es[k + i];
        assert !Blank(ps[k]);
      }
    }
  }

  lemma {:induction false} CleanCString(e: string)
    requires CString(e)
    ensures CString(Clean(e))
  {
    if e != "" {
      CleanCString(e[1..]);
    }
  }

  lemma {:induction false} ScanLength(s: string, started: bool)
    requires CString(s)
    ensures |Scan(s, started)| <= |s|
    ensures Scan(s, started) == s <==> TailOk(s) && (s != "" && s[0] == PATHSEP ==> started)
  {
    if s != "" {
      var t := s[1..];
      assert s == [s[0]] + t;
      TailOkCons(s);
      if Copied(s[0], Next(s, 0), started) {
        ScanLength(t, true);
      } else {
        ScanLength(t, started);
      }
    }
  }

  /** The normal forms are exactly the paths that canonicalize_path leaves alone. */
  lemma NormalFormsAreFixed(s: string)
    requires CString(s)
    ensures Canonical(s) == s <==> NormalForm(s)
  {
    ScanLength(s, false);
  }

  lemma {:induction false} ScanCString(s: string, started: bool)
    requires CString(s)
    ensures CString(Scan(s, started))
  {
    if s != "" {
      ScanCString(s[1..], true);
      ScanCString(s[1..], started);
    }
  }

  /** Canonicalizing twice is canonicalizing once, exactly when all-slash elements only lead. */
  lemma IdempotentExactly(s: string)
    requires CString(s)
    ensures Canonical(Canonical(s)) == Canonical(s) <==> BlanksLead(Parts(s, PATHSEP))
  {
    ScanCString(s, false);
    NormalFormsAreFixed(Canonical(s));
    NormalFormExactly(s);
  }

  /** The smallest path on which a second pass still changes something. */
  lemma BlankElementBreaksNormalForm()
    ensures Canonical("a:/:b") == "a::b"
    ensures Canonical("a::b") == "a:b"
  {
    var s := "a:/:b";
    assert s[1..] == ":/:b" && s[1..][1..] == "/:b" && s[1..][1..][1..] == ":b" && s[1..][1..][1..][1..] == "b";
    assert "b"[1..] == "";
    assert Scan("b", true) == "b" && Scan(":b", true) == ":b" && Scan("/:b", true) == ":b";
    assert Scan(":/:b", true) == "::b";
    var t := "a::b";
    assert t[1..] == "::b" && "::b"[1..] == ":b";
  }

  // ---------------------------------------------------------------------------------------
  // What a search visits
  // ---------------------------------------------------------------------------------------

  lemma {:induction false} RunOfConcat(e: string, t: string, delim: char)
    requires delim !in e && (t == "" || t[0] == delim)
    ensures Run(e + t, delim) == |e|
  {
    if e != "" {
      assert (e + t)[0] == e[0] && e[0] in e;
      assert (e + t)[1..] == e[1..] + t;
      RunOfConcat(e[1..], t, delim);
    } else {
      assert e + t == t;
    }
  }

  lemma PartsOfRun(e: string, t: string, delim: char)
    requires e != "" && delim !in e && (t == "" || t[0] == delim)
    ensures Parts(e + t, delim) == [e] + Parts(t, delim)
  {
    var s := e + t;
    assert s[0] == e[0] && e[0] in e;
    RunOfConcat(e, t, delim);
    assert s[..|e|] == e && s[|e|..] == t;
  }

  lemma {:induction false} CleanRun(e: string, n: nat)
    requires CString(e) && n == Run(e, DIRSEP)
    ensures Clean(e) == e[..n] + Clean(e[n..])
  {
    if n > 0 {
      var t := e[1..];
      CleanRun(t, n - 1);
      CleanCons(e);
      ConsSplit(e, n, Clean(t[n - 1..]));
    } else {
      assert e[..0] == "" && e[0..] == e;
    }
  }

  lemma ConsSplit(e: string, n: nat, rest: string)
    requires 0 < n <= |e|
    ensures e[1..][n - 1..] == e[n..]
    ensures [e[0]] + (e[1..][..n - 1] + rest) == e[..n] + rest
  {
  }

  /** An element keeps its leading slash unless it is blank. */
  lemma {:induction false} CleanStart(e: string)
    requires CString(e)
    ensures e != "" && e[0] == DIRSEP ==> Clean(e) == "" || Clean(e)[0] == DIRSEP
    ensures e != "" && e[0] != DIRSEP ==> Clean(e) != "" && Clean(e)[0] == e[0]
  {
    if e != "" {
      CleanCons(e);
      CleanStart(e[1..]);
    }
  }

  /**
   Cleaning an element keeps its pieces between slashes, in order, and whether it begins with a slash;
   there is one slash between two pieces and none at the end.
   */
  lemma CleanExactly(e: string)
    requires CString(e) && PATHSEP !in e
    ensures Parts(Clean(e), DIRSEP) == Parts(e, DIRSEP)
    ensures Clean(e) != "" ==> (Clean(e)[0] == DIRSEP <==> e[0] == DIRSEP) && Clean(e)[|Clean(e)| - 1] != DIRSEP
    ensures forall i | 0 <= i < |Clean(e)| - 1 :: !(Clean(e)[i] == Clean(e)[i + 1] == DIRSEP)
  {
    CleanPieces(e);
    CleanStart(e);
    CleanIsClean(e);
    var c := Clean(e);
    forall i | 0 <= i < |c| ensures c[i] == DIRSEP ==> i + 1 < |c| && c[i + 1] != DIRSEP {
      assert GoodPair(c[i], Next(c, i));
    }
  }

  lemma {:induction false} CleanPieces(e: string)
    requires CString(e)
    ensures Parts(Clean(e), DIRSEP) == Parts(e, DIRSEP)
    decreases |e|
  {
    if e != "" {
      CleanCons(e);
      if e[0] == DIRSEP {
        CleanPieces(e[1..]);
        assert Survives(e[0], Next(e, 0)) ==> Clean(e)[1..] == Clean(e[1..]);
        assert !Survives(e[0], Next(e, 0)) ==> Clean(e) == Clean(e[1..]);
      } else {
        var n := Run(e, DIRSEP);
        CleanRun(e, n);
        CleanStart(e[n..]);
        CleanPieces(e[n..]);
        assert e == e[..n] + e[n..];
        PartsOfRun(e[..n], e[n..], DIRSEP);
        PartsOfRun(e[..n], Clean(e[n..]), DIRSEP);
      }
    }
  }

  lemma {:induction false} PartsOfTrail(es: seq<string>)
    requires forall i | 0 <= i < |es| :: PATHSEP !in es[i]
    ensures Parts(Trail(es), PATHSEP) == NonEmpty(es)
  {
    if es != [] {
      var e, t := es[0], Trail(es[1..]);
      PartsOfTrail(es[1..]);
      assert Trail(es)[1..] == e + t;
      if e == "" {
        assert e + t == t;
      } else {
        PartsOfRun(e, t, PATHSEP);
      }
    }
  }

  lemma {:induction false} NonEmptyAfterDrop(es: seq<string>)
    ensures NonEmpty(DropEmptyFront(es)) == NonEmpty(es)
  {
    if es != [] && es[0] == "" {
      NonEmptyAfterDrop(es[1..]);
    }
  }

  /** For every path, blank elements or not, a search sees the cleaned elements that are left. */
  lemma CanonicalParts(s: string)
    requires CString(s)
    ensures Parts(Canonical(s), PATHSEP) == NonEmpty(CleanAll(Parts(s, PATHSEP)))
  {
    var ps := Parts(s, PATHSEP);
    var es := CleanAll(ps);
    CanonicalElements(s);
    PartsLackDelimiter(s, PATHSEP);
    forall i | 0 <= i < |es| ensures CleanElement(es[i]) && CString(es[i]) {
      CleanIsClean(ps[i]);
      CleanCString(ps[i]);
    }
    NonEmptyAfterDrop(es);
    var k := DropEmptyFrontSuffix(es);
    var ds := es[k..];
    if ds != [] {
      PartsOfTrail(ds[1..]);
      TrailNormal(ds[1..]);
      assert ds[0] == es[k];
      PartsOfRun(ds[0], Trail(ds[1..]), PATHSEP);
    }
  }
}
