/**
 Listing the modules of a directory: lt_argz_insertdir strips version numbers and the extension from
 a file name and inserts what is left into a sorted vector; list_files_by_dir does so for every name
 that the directory is read as, in whatever order that is.
 */
module DirListings {
  import opened Basics
  import opened ArgzVectors

  predicate IsVersion(c: char) {
    c == '.' || '0' <= c <= '9'
  }

  /** How far down from p only version characters precede; the first character always stays. */
  ghost function VersionStart(name: string, p: nat): (q: nat)
    requires p <= |name|
    ensures q <= p && (p > 0 ==> q > 0)
  {
    if p > 1 && IsVersion(name[p - 1]) then VersionStart(name, p - 1) else p
  }

  /** The name without a version number. */
  ghost function Unversioned(name: string): (end: nat)
    ensures end <= |name| && (name != "" ==> end > 0)
  {
    var p := VersionStart(name, |name|);
    if p < |name| && name[p] == '.' then p else |name|
  }

  /** The last dot before end, unless it is the first character. */
  ghost function LastDot(name: string, end: nat): (e: nat)
    requires end <= |name|
    ensures e <= end && (end > 0 ==> e > 0)
  {
    Dot(name, end, end)
  }

  ghost function Dot(name: string, p: nat, end: nat): (e: nat)
    requires p <= end <= |name|
    ensures e <= end && (end > 0 ==> e > 0)
  {
    if p <= 1 then end else if name[p - 1] == '.' then p - 1 else Dot(name, p - 1, end)
  }

  ghost function Stem(name: string): string {
    name[..LastDot(name, Unversioned(name))]
  }

  /** The two loops of lt_argz_insertdir. */
  method StemEnd(name: string) returns (end: nat)
    requires name != ""
    ensures end <= |name| && name[..end] == Stem(name)
  {
    end := |name|;
    var p := end;
    while p - 1 > 0
      invariant 1 <= p <= |name| && VersionStart(name, p) == VersionStart(name, |name|)
    {
      if !IsVersion(name[p - 1]) {
        break;
      }
      p := p - 1;
    }
    if p < |name| && name[p] == '.' {
      end := p;
    }
    p := end - 1;
    ghost var last := end;
    while p > 0
      invariant 0 <= p < last && end == last && Dot(name, p + 1, last) == LastDot(name, last)
    {
      if name[p] == '.' {
        end := p;
        break;
      }
      p := p - 1;
    }
  }

  ghost function EntryOf(dir: string, name: string): string {
    dir + "/" + Stem(name)
  }

  /** lt_argz_insertdir. */
  method InsertDir(argz: Argz, dir: string, name: string)
    requires WellFormed(argz.argz[..]) && CString(dir) && CString(name) && name != ""
    modifies argz
    ensures WellFormed(argz.argz[..])
    ensures Entries(argz.argz[..]) == InOrder(old(Entries(argz.argz[..])), EntryOf(dir, name))
  {
    var end := StemEnd(name);
    argz.InsertInOrder(dir + "/" + name[..end]);
  }

  /** The vector after the names that do not begin with a dot. */
  ghost function Listed(es: seq<string>, dir: string, names: seq<string>): seq<string>
    decreases |names|
  {
    if names == [] then es
    else Listed(if Hidden(names[0]) then es else InOrder(es, EntryOf(dir, names[0])), dir, names[1..])
  }

  predicate Hidden(name: string) {
    name != "" && name[0] == '.'
  }

  /** list_files_by_dir for a directory that is read as these names. */
  method ListFiles(argz: Argz, dir: string, names: seq<string>)
    requires WellFormed(argz.argz[..]) && CString(dir)
    requires forall i | 0 <= i < |names| :: names[i] != "" && CString(names[i])
    modifies argz
    ensures WellFormed(argz.argz[..])
    ensures Entries(argz.argz[..]) == Listed(old(Entries(argz.argz[..])), dir, names)
  {
    var i := 0;
    assert names[0..] == names;
    while i < |names|
      invariant i <= |names| && WellFormed(argz.argz[..])
      invariant Listed(Entries(argz.argz[..]), dir, names[i..]) == Listed(old(Entries(argz.argz[..])), dir, names)
    {
      assert names[i..][0] == names[i] && names[i..][1..] == names[i + 1..];
      if names[i][0] != '.' {
        InsertDir(argz, dir, names[i]);
      }
      i := i + 1;
    }
  }

  // ---------------------------------------------------------------------------------------
  // What a listing is
  // ---------------------------------------------------------------------------------------

  ghost function NewEntries(dir: string, names: seq<string>): set<string> {
    set n | n in names && !Hidden(n) :: EntryOf(dir, n)
  }

  lemma NewEntriesCons(dir: string, names: seq<string>)
    requires names != []
    ensures NewEntries(dir, names) ==
            NewEntries(dir, names[1..]) + if Hidden(names[0]) then {} else {EntryOf(dir, names[0])}
  {
    assert names == [names[0]] + names[1..];
  }

  /** The listing is in strcmp order without duplicates, and holds exactly what was there and the new entries. */
  lemma ListingIs(es: seq<string>, dir: string, names: seq<string>)
    requires Ascending(es)
    ensures Ascending(Listed(es, dir, names))
    ensures forall e: string :: e in Listed(es, dir, names) <==>
              e in es || exists n :: n in names && (n == "" || n[0] != '.') && e == dir + "/" + Stem(n)
  {
    ListingElems(es, dir, names);
    var out := Listed(es, dir, names);
    forall e: string
      ensures e in out <==> e in es || exists n :: n in names && (n == "" || n[0] != '.') && e == dir + "/" + Stem(n)
    {
      assert e in out <==> e in Elems(out);
      assert e in es <==> e in Elems(es);
    }
  }

  lemma {:induction false} ListingElems(es: seq<string>, dir: string, names: seq<string>)
    requires Ascending(es)
    ensures Ascending(Listed(es, dir, names))
    ensures Elems(Listed(es, dir, names)) == Elems(es) + NewEntries(dir, names)
    decreases |names|
  {
    if names == [] {
      assert NewEntries(dir, names) == {};
    } else {
      NewEntriesCons(dir, names);
      if Hidden(names[0]) {
        ListingElems(es, dir, names[1..]);
      } else {
        var e := EntryOf(dir, names[0]);
        InOrderAscending(es, e);
        InOrderElems(es, e);
        ListingElems(InOrder(es, e), dir, names[1..]);
      }
    }
  }

  /** An ascending vector is determined by its set of entries. */
  lemma {:induction false} AscendingUnique(a: seq<string>, b: seq<string>)
    requires Ascending(a) && Ascending(b) && Elems(a) == Elems(b)
    ensures a == b
  {
    if a == [] {
      SomeElem(b);
    } else {
      SmallestFirst(a, b);
      SmallestFirst(b, a);
      StrCmpZero(a[0], b[0]);
      AscendingTail(a);
      AscendingTail(b);
      AscendingUnique(a[1..], b[1..]);
      assert a == [a[0]] + a[1..] && b == [b[0]] + b[1..];
    }
  }

  lemma SomeElem(es: seq<string>)
    ensures es != [] ==> Elems(es) != {}
  {
    if es != [] {
      assert es[0] in Elems(es);
    }
  }

  lemma SmallestFirst(a: seq<string>, b: seq<string>)
    requires Ascending(b) && Elems(a) == Elems(b) && a != []
    ensures b != [] && StrCmp(b[0], a[0]) <= 0
  {
    assert a[0] in Elems(b);
    var i :| 0 <= i < |b| && b[i] == a[0];
    StrCmpZero(b[0], b[0]);
  }

  lemma AscendingTail(a: seq<string>)
    requires Ascending(a) && a != []
    ensures Ascending(a[1..]) && Elems(a[1..]) == Elems(a) - {a[0]}
  {
    var t := a[1..];
    StrCmpZero(a[0], a[0]);
    forall i | 0 <= i < |t| ensures t[i] in Elems(a) && t[i] != a[0] {
      assert t[i] == a[i + 1];
    }
    forall e | e in Elems(a) && e != a[0] ensures e in Elems(t) {
      var i :| 0 <= i < |a| && a[i] == e;
      assert t[i - 1] == e;
    }
  }

  /** Whatever order a directory is read in, and however often a name comes, the listing is the same. */
  lemma AnyReadingOrder(es: seq<string>, dir: string, names: seq<string>, others: seq<string>)
    requires Ascending(es) && forall n: string :: n in names <==> n in others
    ensures Listed(es, dir, names) == Listed(es, dir, others)
  {
    ListingElems(es, dir, names);
    ListingElems(es, dir, others);
    assert NewEntries(dir, names) == NewEntries(dir, others);
    AscendingUnique(Listed(es, dir, names), Listed(es, dir, others));
  }

  // ---------------------------------------------------------------------------------------
  // What is left of a name
  // ---------------------------------------------------------------------------------------

  lemma {:induction false} DotExactly(name: string, p: nat, end: nat)
    requires p <= end <= |name|
    ensures Dot(name, p, end) == end <==> forall i | 1 <= i < p :: name[i] != '.'
  {
    if p > 1 {
      DotExactly(name, p - 1, end);
    }
  }

  lemma {:induction false} DotAt(name: string, p: nat, end: nat, d: nat)
    requires 1 <= d < p <= end <= |name| && name[d] == '.'
    requires forall i | d < i < p :: name[i] != '.'
    ensures Dot(name, p, end) == d
  {
    if p - 1 > d {
      DotAt(name, p - 1, end, d);
    }
  }

  lemma {:induction false} VersionStartAt(name: string, p: nat, h: nat)
    requires 1 <= h <= p <= |name| && (h == 1 || !IsVersion(name[h - 1]))
    requires forall i | h <= i < p :: IsVersion(name[i])
    ensures VersionStart(name, p) == h
  {
    if p > h {
      VersionStartAt(name, p - 1, h);
    }
  }

  /** A name is kept whole exactly when it has no dot behind its first character. */
  lemma StemKeepsExactly(name: string)
    ensures Stem(name) == name <==> forall i | 1 <= i < |name| :: name[i] != '.'
  {
    var end := Unversioned(name);
    DotExactly(name, end, end);
    assert end < |name| ==> end > 0 && name[end] == '.';
  }

  /**
   Every name is a head and the dots and digits at its end, which stop before the first character.
   They go if they begin with a dot; after that the last extension goes, if there is one.
   */
  lemma StemExactly(head: string, tail: string, base: string, ext: string)
    requires head != "" && (|head| > 1 ==> var c := head[|head| - 1]; c != '.' && !('0' <= c <= '9'))
    requires forall i | 0 <= i < |tail| :: tail[i] == '.' || '0' <= tail[i] <= '9'
    ensures var kept := if tail != "" && tail[0] == '.' then head else head + tail;
            && ((forall i | 1 <= i < |kept| :: kept[i] != '.') ==> Stem(head + tail) == kept)
            && (kept == base + "." + ext && base != "" && '.' !in ext ==> Stem(head + tail) == base)
  {
    var name := head + tail;
    forall i | |head| <= i < |name| ensures IsVersion(name[i]) {
      assert name[i] == tail[i - |head|];
    }
    VersionStartAt(name, |name|, |head|);
    var kept := if tail != "" && tail[0] == '.' then head else name;
    assert Unversioned(name) == |kept| && name[..|kept|] == kept;
    StemOfKept(name, |kept|, base, ext);
  }

  lemma StemOfKept(name: string, end: nat, base: string, ext: string)
    requires end <= |name| && end == Unversioned(name)
    ensures (forall i | 1 <= i < end :: name[i] != '.') ==> Stem(name) == name[..end]
    ensures name[..end] == base + "." + ext && base != "" && '.' !in ext ==> Stem(name) == base
  {
    DotExactly(name, end, end);
    var kept := base + "." + ext;
    if name[..end] == kept && base != "" && '.' !in ext {
      forall i | |base| < i < end ensures name[i] != '.' {
        assert name[i] == kept[i] == ext[i - |base| - 1];
      }
      assert name[|base|] == kept[|base|];
      DotAt(name, end, end, |base|);
      assert name[..|base|] == kept[..|base|] == base;
    }
  }

  /** A library name loses its version number and its extension. */
  lemma StemOfLibrary(base: string, ext: string, version: string)
    requires base != "" && ext != "" && '.' !in ext && !('0' <= ext[|ext| - 1] <= '9')
    requires version != "" ==> version[0] == '.'
    requires forall i | 0 <= i < |version| :: version[i] == '.' || '0' <= version[i] <= '9'
    ensures Stem(base + "." + ext + version) == base
  {
    var head := base + "." + ext;
    assert head[|head| - 1] == ext[|ext| - 1] && ext[|ext| - 1] in ext;
    assert version == "" ==> head + version == head;
    StemExactly(head, version, base, ext);
  }

  /** Without an extension only the version number goes. */
  lemma StemOfVersioned(base: string, version: string)
    requires base != "" && (forall i | 1 <= i < |base| :: base[i] != '.') && !('0' <= base[|base| - 1] <= '9')
    requires version != "" && version[0] == '.'
    requires forall i | 0 <= i < |version| :: version[i] == '.' || '0' <= version[i] <= '9'
    ensures Stem(base + version) == base
  {
    StemExactly(base, version, base, "");
  }

  lemma StemSamples()
    ensures Stem("libfoo.so.1.2") == "libfoo" && Stem("foo.so1") == "foo" && Stem("m-1.2.so") == "m-1.2"
    ensures Stem("core.7") == "core" && Stem("readme") == "readme"
  {
    StemOfLibrary("libfoo", "so", ".1.2");
    assert "libfoo.so.1.2" == "libfoo" + "." + "so" + ".1.2";
    StemOfLibrary("m-1.2", "so", "");
    assert "m-1.2.so" == "m-1.2" + "." + "so" + "";
    NumberedExtension();
    StemOfVersioned("core", ".7");
    assert "core.7" == "core" + ".7";
    StemKeepsExactly("readme");
  }

  lemma NumberedExtension()
    ensures Stem("foo.so1") == "foo"
  {
    StemExactly("foo.so", "1", "foo", "so1");
    assert "foo.so1" == "foo.so" + "1" == "foo" + "." + "so1";
  }
}
