/**
 Argz vectors: string lists kept in one block of bytes, each entry ended by EOS.
 The functions of lt__argz.c and the two insertions that ltdl.c builds on them.
 */
module ArgzVectors {
  import opened Basics
  import opened Paths

  // ---------------------------------------------------------------------------------------
  // Bytes and entries
  // ---------------------------------------------------------------------------------------

  ghost function Flat(es: seq<string>): string {
    if es == [] then "" else es[0] + [EOS] + Flat(es[1..])
  }

  ghost predicate WellFormed(b: string) {
    b != "" ==> b[|b| - 1] == EOS
  }

  /** The C string that starts at offset i. */
  ghost function CStringAt(b: string, i: nat): string
    requires i <= |b|
    decreases |b| - i
  {
    if i == |b| || b[i] == EOS then "" else [b[i]] + CStringAt(b, i + 1)
  }

  /** One byte in front of a list of entries: a new empty entry or one more character of the first. */
  ghost function Prepend(c: char, es: seq<string>): seq<string> {
    if c == EOS then [""] + es
    else if es == [] then [[c]]
    else [[c] + es[0]] + es[1..]
  }

  ghost function Entries(b: string): seq<string> {
    if b == "" then [] else Prepend(b[0], Entries(b[1..]))
  }

  ghost predicate CStrings(es: seq<string>) {
    forall i | 0 <= i < |es| :: CString(es[i])
  }

  lemma {:induction false} EntriesConcat(a: string, b: string)
    requires WellFormed(a)
    ensures Entries(a + b) == Entries(a) + Entries(b)
    ensures a != "" ==> Entries(a) != []
  {
    if a == "" {
      assert a + b == b;
    } else {
      var t := a[1..];
      EntriesConcat(t, b);
      assert (a + b)[1..] == t + b;
      PrependConcat(a[0], Entries(t), Entries(b));
    }
  }

  lemma PrependConcat(c: char, x: seq<string>, y: seq<string>)
    requires c == EOS || x != []
    ensures Prepend(c, x + y) == Prepend(c, x) + y
  {
  }

  lemma {:induction false} SingleEntry(e: string)
    requires CString(e)
    ensures Entries(e + [EOS]) == [e]
  {
    var b := e + [EOS];
    if e != "" {
      SingleEntry(e[1..]);
      assert b[1..] == e[1..] + [EOS];
      assert [e[1..]][1..] == [] && e == [e[0]] + e[1..];
    } else {
      assert b[1..] == "";
    }
  }

  lemma FlatCons(e: string, es: seq<string>)
    ensures Flat([e] + es) == e + [EOS] + Flat(es)
  {
    assert ([e] + es)[1..] == es;
  }

  /** Any list of C strings can be read back from its bytes. */
  lemma {:induction false} EntriesOfFlat(es: seq<string>)
    requires CStrings(es)
    ensures WellFormed(Flat(es)) && Entries(Flat(es)) == es
  {
    if es != [] {
      EntriesOfFlat(es[1..]);
      SingleEntry(es[0]);
      EntriesConcat(es[0] + [EOS], Flat(es[1..]));
    }
  }

  lemma FlatPrepend(c: char, es: seq<string>)
    requires c == EOS || es != []
    ensures Flat(Prepend(c, es)) == [c] + Flat(es)
  {
    if c == EOS {
      FlatCons("", es);
    } else {
      var e, t := [c] + es[0], es[1..];
      FlatCons(e, t);
      assert e + [EOS] + Flat(t) == [c] + (es[0] + [EOS] + Flat(t));
    }
  }

  /** Any well-formed block is the block of its entries. */
  lemma {:induction false} FlatOfEntries(b: string)
    requires WellFormed(b)
    ensures Flat(Entries(b)) == b
    ensures b != "" ==> Entries(b) != []
  {
    if b != "" {
      FlatOfEntries(b[1..]);
      FlatPrepend(b[0], Entries(b[1..]));
      assert b == [b[0]] + b[1..];
    }
  }

  // ---------------------------------------------------------------------------------------
  // argz_create_sep and argz_stringify
  // ---------------------------------------------------------------------------------------

  /** What is written for the rest of the string; fold says that a delimiter here is dropped. */
  ghost function SepFrom(s: string, delim: char, fold: bool): string {
    if s == "" then [EOS]
    else if s[0] == delim then (if fold then "" else [EOS]) + SepFrom(s[1..], delim, true)
    else [s[0]] + SepFrom(s[1..], delim, false)
  }

  ghost function Sep(s: string, delim: char): string {
    SepFrom(s, delim, true)
  }

  lemma SepStep(s: string, i: nat, delim: char, fold: bool)
    requires i < |s|
    ensures SepFrom(s[i..], delim, fold) ==
            if s[i] == delim then (if fold then "" else [EOS]) + SepFrom(s[i + 1..], delim, true)
            else [s[i]] + SepFrom(s[i + 1..], delim, false)
  {
    assert s[i..][0] == s[i] && s[i..][1..] == s[i + 1..];
  }

  lemma SepWritten(s: string, i: nat, delim: char, fold: bool, written: string, x: string)
    requires i < |s| && x == if s[i] != delim then [s[i]] else if fold then "" else [EOS]
    ensures written + SepFrom(s[i..], delim, fold) == written + x + SepFrom(s[i + 1..], delim, s[i] == delim)
  {
    SepStep(s, i, delim, fold);
    Assoc(written, x, SepFrom(s[i + 1..], delim, s[i] == delim));
  }

  method CreateSep(str: string, delim: char) returns (argz: array<char>, argzLen: nat)
    requires CString(str)
    ensures fresh(argz) && argzLen <= argz.Length
    ensures argz[..argzLen] == Sep(str, delim)
  {
    argzLen := 1 + |str|;
    argz := new char[argzLen];
    var p, q := 0, 0;
    ghost var written, fold := "", true;
    assert str[0..] == str && written + Sep(str, delim) == Sep(str, delim);
    while p != |str|
      invariant q <= p <= |str| && argzLen == 1 + |str| - (p - q)
      invariant argz[..q] == written && fold == (q == 0 || argz[q - 1] == EOS)
      invariant written + SepFrom(str[p..], delim, fold) == Sep(str, delim)
    {
      ghost var x := if str[p] != delim then [str[p]] else if fold then "" else [EOS];
      SepWritten(str, p, delim, fold, written, x);
      if str[p] == delim {
        if q > 0 && argz[q - 1] != EOS {
          argz[q] := EOS;
          q := q + 1;
        } else {
          argzLen := argzLen - 1;
        }
      } else {
        argz[q] := str[p];
        q := q + 1;
      }
      written, fold := written + x, str[p] == delim;
      p := p + 1;
    }
    argz[q] := EOS;
    assert argz[..argzLen] == written + [EOS];
  }

  /** Every terminator but the last becomes the separator; a terminator in front is not looked at. */
  ghost function Stringified(b: string, sep: char): string {
    if sep == EOS then b
    else seq(|b|, i requires 0 <= i < |b| => if 1 <= i < |b| - 1 && b[i] == EOS then sep else b[i])
  }

  /** With a separator the length must be at least 2, or the index below zero would wrap round. */
  method Stringify(argz: array<char>, argzLen: nat, sep: char)
    requires argzLen <= argz.Length
    requires sep != EOS ==> argzLen >= 2
    modifies argz
    ensures argz[..argzLen] == Stringified(old(argz[..argzLen]), sep)
    ensures argz[argzLen..] == old(argz[argzLen..])
  {
    if sep != EOS {
      var n: int := argzLen - 1;
      n := n - 1;
      while n > 0
        invariant 0 <= n < argzLen - 1
        invariant forall i | 0 <= i <= n || argzLen - 1 <= i < argz.Length :: argz[i] == old(argz[i])
        invariant forall i | n < i < argzLen - 1 :: argz[i] == if old(argz[i]) == EOS then sep else old(argz[i])
      {
        if argz[n] == EOS {
          argz[n] := sep;
        }
        n := n - 1;
      }
    }
  }

  lemma {:induction false} SepRun(s: string, delim: char, n: nat, fold: bool)
    requires n == Run(s, delim)
    ensures SepFrom(s, delim, fold) == s[..n] + SepFrom(s[n..], delim, if n == 0 then fold else false)
  {
    if n > 0 {
      var t := s[1..];
      SepRun(t, delim, n - 1, false);
      assert s[..n] == [s[0]] + t[..n - 1] && t[n - 1..] == s[n..];
    } else {
      assert s[0..] == s;
    }
  }

  /** A final delimiter leaves an empty entry behind, and so does the empty string. */
  ghost function LastEmpty(s: string, delim: char): seq<string> {
    if s == "" || s[|s| - 1] == delim then [""] else []
  }

  /** For every string: the entries are its non-empty pieces, plus possibly an empty last one. */
  lemma {:induction false} SepEntries(s: string, delim: char)
    requires CString(s)
    ensures Sep(s, delim) == Flat(Parts(s, delim) + LastEmpty(s, delim))
    ensures Entries(Sep(s, delim)) == Parts(s, delim) + LastEmpty(s, delim)
    decreases |s|, 1
  {
    SepIsFlat(s, delim);
    PartsLackDelimiter(s, delim);
    var es := Parts(s, delim) + LastEmpty(s, delim);
    assert CStrings(es);
    EntriesOfFlat(es);
  }

  lemma {:induction false} SepIsFlat(s: string, delim: char)
    requires CString(s)
    ensures Sep(s, delim) == Flat(Parts(s, delim) + LastEmpty(s, delim))
    decreases |s|
  {
    if s == "" {
      assert Flat([""]) == [EOS];
    } else if s[0] == delim {
      SepIsFlat(s[1..], delim);
    } else {
      var n := Run(s, delim);
      SepRun(s, delim, n, true);
      if n == |s| {
        assert s[..n] == s && s[n..] == "";
        assert Parts(s, delim) + LastEmpty(s, delim) == [s] + [];
        FlatCons(s, []);
      } else {
        SepStep(s, n, delim, false);
        SepIsFlat(s[n + 1..], delim);
        PartsAfterRun(s, delim);
        FlatCons(s[..n], Parts(s[n + 1..], delim) + LastEmpty(s[n + 1..], delim));
      }
    }
  }

  lemma PartsAfterRun(s: string, delim: char)
    requires Run(s, delim) < |s| && s[0] != delim
    ensures var n := Run(s, delim);
            Parts(s, delim) + LastEmpty(s, delim) ==
            [s[..n]] + (Parts(s[n + 1..], delim) + LastEmpty(s[n + 1..], delim))
  {
    var n := Run(s, delim);
    assert s[n..][0] == delim && s[n..][1..] == s[n + 1..];
    assert LastEmpty(s, delim) == LastEmpty(s[n + 1..], delim);
  }

  /** Nothing to fold: no delimiter in front and no two next to each other. */
  ghost predicate NoFold(s: string, delim: char, fold: bool) {
    && (fold && s != "" ==> s[0] != delim)
    && forall i | 0 <= i < |s| - 1 :: !(s[i] == delim && s[i + 1] == delim)
  }

  lemma NoFoldCons(s: string, delim: char, fold: bool)
    requires s != ""
    ensures NoFold(s, delim, fold) <==> !(fold && s[0] == delim) && NoFold(s[1..], delim, s[0] == delim)
  {
    var t := s[1..];
    assert forall i | 0 <= i < |t| :: t[i] == s[i + 1];
    if !(fold && s[0] == delim) && NoFold(t, delim, s[0] == delim) {
      forall i | 0 <= i < |s| - 1 ensures !(s[i] == delim && s[i + 1] == delim) {
        if i > 0 { assert t[i - 1] == s[i] && t[i] == s[i + 1]; }
      }
    }
    if NoFold(s, delim, fold) {
      forall i | 0 <= i < |t| - 1 ensures !(t[i] == delim && t[i + 1] == delim) {
        assert s[i + 1] == t[i] && s[i + 2] == t[i + 1];
      }
    }
  }

  ghost function Swapped(s: string, from: char, to: char): string {
    seq(|s|, i requires 0 <= i < |s| => if s[i] == from then to else s[i])
  }

  lemma {:induction false} SepLength(s: string, delim: char, fold: bool)
    ensures 1 <= |SepFrom(s, delim, fold)| <= |s| + 1
    ensures |SepFrom(s, delim, fold)| == |s| + 1 <==> NoFold(s, delim, fold)
    ensures NoFold(s, delim, fold) ==> SepFrom(s, delim, fold) == Swapped(s, delim, EOS) + [EOS]
  {
    if s != "" {
      NoFoldCons(s, delim, fold);
      var t := s[1..];
      SepLength(t, delim, s[0] == delim);
      assert Swapped(s, delim, EOS) == [if s[0] == delim then EOS else s[0]] + Swapped(t, delim, EOS);
    }
  }

  /** Splitting and joining again restores the string exactly when nothing had to be folded. */
  lemma SplitJoinExactly(s: string, delim: char)
    requires CString(s) && delim != EOS && |Sep(s, delim)| >= 2
    ensures Stringified(Sep(s, delim), delim) == s + [EOS] <==> NoFold(s, delim, true)
  {
    SepLength(s, delim, true);
  }

  /** A path in normal form: its entries are its elements and joining gives it back byte for byte. */
  lemma NormalFormRoundTrip(s: string)
    requires CString(s) && s != "" && NormalForm(s)
    ensures Entries(Sep(s, PATHSEP)) == Parts(s, PATHSEP)
    ensures Stringified(Sep(s, PATHSEP), PATHSEP) == s + [EOS]
  {
    SepEntries(s, PATHSEP);
    assert GoodPair(s[|s| - 1], Next(s, |s| - 1));
    forall i | 0 <= i < |s| - 1 ensures !(s[i] == PATHSEP && s[i + 1] == PATHSEP) {
      assert GoodPair(s[i], Next(s, i));
    }
    SepLength(s, PATHSEP, true);
    SplitJoinExactly(s, PATHSEP);
  }

  /** From any search path to the elements a search visits and back to the canonical path. */
  lemma SearchPathRoundTrip(path: string)
    requires CString(path) && Canonical(path) != "" && BlanksLead(Parts(path, PATHSEP))
    ensures var c := Canonical(path);
            && Entries(Sep(c, PATHSEP)) == NonEmpty(CleanAll(Parts(path, PATHSEP)))
            && Stringified(Sep(c, PATHSEP), PATHSEP) == c + [EOS]
  {
    var c := Canonical(path);
    NormalFormExactly(path);
    ScanCString(path, false);
    NormalFormRoundTrip(c);
    CanonicalParts(path);
  }

  // ---------------------------------------------------------------------------------------
  // argz_append, argz_insert, argz_next
  // ---------------------------------------------------------------------------------------

  /** The start of the entry that offset i lies in. */
  ghost function EntryStart(b: string, i: nat): (k: nat)
    requires i <= |b|
    ensures k <= i && WellFormed(b[..k])
    ensures CString(b[k..i])
  {
    if i == 0 || b[i - 1] == EOS then i
    else
      var k := EntryStart(b, i - 1);
      assert b[k..i] == b[k..i - 1] + [b[i - 1]];
      k
  }

  ghost function Spliced(b: string, i: nat, entry: string): string
    requires i <= |b|
  {
    var k := EntryStart(b, i);
    b[..k] + (entry + [EOS]) + b[k..]
  }

  /** Which entry offset i lies in, counting from zero. */
  ghost function EntryIndex(b: string, i: nat): nat
    requires i <= |b|
  {
    |Entries(b[..EntryStart(b, i)])|
  }

  lemma SpliceEntries(a: string, entry: string, c: string)
    requires WellFormed(a) && CString(entry)
    ensures Entries(a + (entry + [EOS]) + c) == Entries(a) + [entry] + Entries(c)
  {
    var m := entry + [EOS];
    SingleEntry(entry);
    EntriesConcat(a, m);
    EntriesConcat(a + m, c);
  }

  /** Cutting at the start of an entry cuts the list of entries. */
  lemma EntriesCut(b: string, k: nat)
    requires k <= |b| && WellFormed(b[..k])
    ensures Entries(b) == Entries(b[..k]) + Entries(b[k..])
  {
    assert b == b[..k] + b[k..];
    EntriesConcat(b[..k], b[k..]);
  }

  /** The new entry comes right before the one containing offset i; all others stay as they were. */
  lemma SpliceInsertsEntry(b: string, i: nat, entry: string)
    requires WellFormed(b) && i <= |b| && CString(entry)
    ensures WellFormed(Spliced(b, i, entry)) && EntryIndex(b, i) <= |Entries(b)|
    ensures var k := EntryIndex(b, i);
            Entries(Spliced(b, i, entry)) == Entries(b)[..k] + [entry] + Entries(b)[k..]
  {
    var s := EntryStart(b, i);
    EntriesCut(b, s);
    SpliceEntries(b[..s], entry, b[s..]);
    var es, k := Entries(b), |Entries(b[..s])|;
    assert es[..k] == Entries(b[..s]) && es[k..] == Entries(b[s..]);
    assert b[s..] != "" ==> b[s..][|b| - s - 1] == b[|b| - 1];
  }

  lemma {:induction false} FirstEntry(b: string, i: nat)
    requires WellFormed(b) && i < |b|
    ensures i + |CStringAt(b, i)| < |b| && b[i + |CStringAt(b, i)|] == EOS
    ensures forall j | 0 <= j < |CStringAt(b, i)| :: CStringAt(b, i)[j] == b[i + j] != EOS
    decreases |b| - i
  {
    if b[i] != EOS {
      FirstEntry(b, i + 1);
    }
  }

  lemma {:induction false} FirstEntryRest(b: string, i: nat)
    requires WellFormed(b) && i < |b|
    ensures i + |CStringAt(b, i)| < |b|
    ensures Entries(b[i..]) == [CStringAt(b, i)] + Entries(b[i + |CStringAt(b, i)| + 1..])
    decreases |b| - i
  {
    FirstEntry(b, i);
    assert b[i..][0] == b[i] && b[i..][1..] == b[i + 1..];
    if b[i] != EOS {
      FirstEntryRest(b, i + 1);
      var r := Entries(b[i + |CStringAt(b, i)| + 1..]);
      assert ([CStringAt(b, i + 1)] + r)[1..] == r;
    }
  }

  lemma {:induction false} EntryStartBefore(b: string, i: nat, n: nat)
    requires i <= |b| && n < |b| && b[n] == EOS && EntryStart(b, i) <= n
    ensures i <= n
  {
    if i > 0 && b[i - 1] != EOS {
      EntryStartBefore(b, i - 1, n);
    }
  }

  /** EntryIndex is the entry that offset i points into, its terminator included. */
  lemma EntryContainsOffset(b: string, i: nat)
    requires WellFormed(b) && i < |b|
    ensures var k, s := EntryIndex(b, i), EntryStart(b, i);
            && k < |Entries(b)| && Entries(b)[k] == CStringAt(b, s)
            && s <= i <= s + |Entries(b)[k]|
  {
    var s := EntryStart(b, i);
    EntriesCut(b, s);
    FirstEntry(b, s);
    FirstEntryRest(b, s);
    EntryStartBefore(b, i, s + |CStringAt(b, s)|);
  }

  /** The vector behind pargz and pargz_len; a null pointer is a block of length zero. */
  class Argz {
    var argz: array<char>

    constructor ()
      ensures argz[..] == "" && fresh(argz)
    {
      argz := new char[0];
    }

    /** A block of which the first len bytes are in use. */
    constructor Of(block: array<char>, len: nat)
      requires len <= block.Length
      ensures argz[..] == block[..len] && fresh(argz)
    {
      argz := new char[len];
      new;
      forall i | 0 <= i < len { argz[i] := block[i]; }
    }

    method Append(buf: string)
      modifies this
      ensures buf != "" ==> fresh(argz)
      ensures argz[..] == old(argz[..]) + buf
    {
      if |buf| == 0 {
        assert argz[..] + buf == argz[..];
        return;
      }
      var len := argz.Length;
      var bigger := new char[len + |buf|];
      forall i | 0 <= i < len { bigger[i] := argz[i]; }
      forall i | 0 <= i < |buf| { bigger[len + i] := buf[i]; }
      argz := bigger;
      assert argz[..] == old(argz[..]) + buf;
    }

    method Insert(before0: Option<nat>, entry: string)
      requires before0.Some? ==> before0.value <= argz.Length
      requires entry != "" && CString(entry)
      modifies this
      ensures fresh(argz)
      ensures argz[..] == if before0.None? then old(argz[..]) + (entry + [EOS])
                          else Spliced(old(argz[..]), before0.value, entry)
    {
      if before0.None? {
        Append(entry + [EOS]);
        return;
      }
      var before: nat := before0.value;
      while before > 0 && argz[before - 1] != EOS
        invariant before <= argz.Length
        invariant EntryStart(argz[..], before) == EntryStart(argz[..], before0.value)
      {
        before := before - 1;
      }
      Splice(before, entry + [EOS]);
    }

    /** realloc, memmove of the tail, memcpy of the entry into the gap. */
    method Splice(before: nat, text: string)
      requires before <= argz.Length
      modifies this
      ensures fresh(argz)
      ensures argz[..] == old(argz[..])[..before] + text + old(argz[..])[before..]
    {
      var len := argz.Length;
      var bigger := new char[len + |text|];
      forall i | 0 <= i < before { bigger[i] := argz[i]; }
      forall i | before <= i < len { bigger[i + |text|] := argz[i]; }
      forall i | 0 <= i < |text| { bigger[before + i] := text[i]; }
      forall i | before <= i < len ensures bigger[..][i + |text|] == argz[i] { }
      argz := bigger;
      assert argz[..] == old(argz[..])[..before] + text + old(argz[..])[before..];
    }

    method Next(entry: Option<nat>) returns (r: Option<nat>)
      requires WellFormed(argz[..])
      requires entry.Some? && argz.Length > 0 ==> entry.value < argz.Length
      ensures entry.None? ==> r == if argz.Length > 0 then Some(0) else None
      ensures entry.Some? && argz.Length > 0 ==>
                var e: nat := entry.value + |CStringAt(argz[..], entry.value)| + 1;
                r == if e >= argz.Length then None else Some(e)
      ensures argz.Length == 0 ==> r == None
    {
      if entry.Some? {
        if argz.Length == 0 {
          return None;
        }
        var e := entry.value;
        FirstEntry(argz[..], entry.value);
        ghost var name := CStringAt(argz[..], entry.value);
        forall j | e <= j < e + |name| ensures argz[j] != EOS {
          assert name[j - e] == argz[j];
        }
        while argz[e] != EOS
          invariant entry.value <= e <= entry.value + |name| < argz.Length
          invariant forall j | e <= j < entry.value + |name| :: argz[j] != EOS
          decreases argz.Length - e
        {
          e := e + 1;
        }
        e := e + 1;
        return if e >= argz.Length then None else Some(e);
      } else {
        return if argz.Length > 0 then Some(0) else None;
      }
    }

    /** strcmp of entry with the string at an offset of the vector. */
    method StrCmpAt(entry: string, at: nat) returns (cmp: int)
      requires WellFormed(argz[..]) && at < argz.Length && CString(entry)
      ensures cmp == StrCmp(entry, CStringAt(argz[..], at))
    {
      ghost var name := CStringAt(argz[..], at);
      FirstEntry(argz[..], at);
      var i := 0;
      assert entry[0..] == entry && name[0..] == name;
      while i < |entry| && argz[at + i] == entry[i]
        invariant i <= |entry| && i <= |name|
        invariant StrCmp(entry, name) == StrCmp(entry[i..], name[i..])
      {
        assert name[i] == argz[at + i];
        assert entry[i..][1..] == entry[i + 1..] && name[i..][1..] == name[i + 1..];
        i := i + 1;
      }
      var c := if i < |entry| then entry[i] else EOS;
      var d := argz[at + i];
      assert i < |name| ==> name[i] == d && name[i..][0] == d;
      assert i < |entry| ==> entry[i..][0] == c && c != EOS;
      assert i >= |name| ==> d == EOS && name[i..] == "";
      assert i >= |entry| ==> entry[i..] == "";
      assert c != EOS ==> EOS < c;
      assert d != EOS ==> EOS < d;
      cmp := if c < d then -1 else if c > d then 1 else 0;
    }

    /** The scan of lt_argz_insertinorder: where to insert, or that the entry is there already. */
    method Locate(entry: string) returns (before: Option<nat>, found: bool, ghost k: nat)
      requires WellFormed(argz[..]) && CString(entry)
      ensures k <= |Entries(argz[..])|
      ensures forall i | 0 <= i < k :: StrCmp(entry, Entries(argz[..])[i]) > 0
      ensures before.None? ==> k == |Entries(argz[..])| && !found
      ensures before.Some? ==> before.value < argz.Length && k < |Entries(argz[..])| &&
                               StartsEntry(argz[..], before.value, k) &&
                               (if found then StrCmp(entry, Entries(argz[..])[k]) == 0
                                else StrCmp(entry, Entries(argz[..])[k]) < 0)
    {
      ghost var b := argz[..];
      ghost var es := Entries(b);
      found, k := false, 0;
      before := Next(None);
      NextStartsEntry(b, None, 0, before);
      while before.Some?
        invariant k <= |es| && !found
        invariant before.None? ==> k == |es|
        invariant before.Some? ==> before.value < |b| && k < |es| && StartsEntry(b, before.value, k) &&
                                   es[k] == CStringAt(b, before.value)
        invariant forall i | 0 <= i < k :: StrCmp(entry, es[i]) > 0
        decreases |es| - k
      {
        var cmp := StrCmpAt(entry, before.value);
        if cmp < 0 {
          break;
        }
        if cmp == 0 {
          found := true;
          break;
        }
        var next := Next(before);
        NextStartsEntry(b, before, k, next);
        before, k := next, k + 1;
      }
    }

    /** lt_argz_insertinorder. */
    method InsertInOrder(entry: string)
      requires WellFormed(argz[..]) && entry != "" && CString(entry)
      modifies this
      ensures WellFormed(argz[..])
      ensures Entries(argz[..]) == InOrder(old(Entries(argz[..])), entry)
    {
      ghost var b := argz[..];
      ghost var es := Entries(b);
      var before, found, k := Locate(entry);
      if found {
        InOrderFound(es, k, entry);
        return;
      }
      InOrderAt(es, k, entry);
      Insert(before, entry);
      if before.Some? {
        StartIsEntryStart(b, before.value);
        SpliceInsertsEntry(b, before.value, entry);
      } else {
        assert b + (entry + [EOS]) + "" == b + (entry + [EOS]);
        SpliceEntries(b, entry, "");
        assert es[..k] == es && es[k..] == [];
      }
    }
  }

  lemma StartIsEntryStart(b: string, i: nat)
    requires i <= |b| && WellFormed(b[..i])
    ensures EntryStart(b, i) == i
  {
    assert i > 0 ==> b[..i][i - 1] == b[i - 1];
  }

  /** Entry number k starts at offset i. */
  ghost predicate StartsEntry(b: string, i: nat, k: nat)
    requires i <= |b|
  {
    WellFormed(b[..i]) && |Entries(b[..i])| == k
  }

  /** The entry that starts at i, and how many start before the next one. */
  lemma EntryAt(b: string, i: nat)
    requires WellFormed(b) && i < |b| && WellFormed(b[..i])
    ensures var k, e := |Entries(b[..i])|, i + |CStringAt(b, i)| + 1;
            && k < |Entries(b)| && Entries(b)[k] == CStringAt(b, i)
            && e <= |b| && WellFormed(b[..e]) && |Entries(b[..e])| == k + 1
  {
    EntriesCut(b, i);
    FirstEntry(b, i);
    FirstEntryRest(b, i);
    var e := i + |CStringAt(b, i)| + 1;
    EntriesCut(b, e);
  }

  /** The iterator moves from the start of one entry to the start of the next. */
  lemma NextStartsEntry(b: string, before: Option<nat>, k: nat, next: Option<nat>)
    requires WellFormed(b)
    requires before.Some? ==> before.value < |b| && StartsEntry(b, before.value, k)
    requires before.None? ==> next == if |b| > 0 then Some(0) else None
    requires before.Some? ==> var e: nat := before.value + |CStringAt(b, before.value)| + 1;
                              next == if e >= |b| then None else Some(e)
    ensures var k' := if before.None? then 0 else k + 1;
            && (next.None? ==> k' == |Entries(b)|)
            && (next.Some? ==> next.value < |b| && k' < |Entries(b)| && StartsEntry(b, next.value, k') &&
                               Entries(b)[k'] == CStringAt(b, next.value))
  {
    if before.Some? {
      EntryAt(b, before.value);
    }
    if next.Some? {
      EntryAt(b, next.value);
    }
    assert b[..|b|] == b;
  }

  // ---------------------------------------------------------------------------------------
  // strcmp order
  // ---------------------------------------------------------------------------------------

  /** Ascending without duplicates. */
  ghost predicate Ascending(es: seq<string>) {
    forall i, j | 0 <= i < j < |es| :: StrCmp(es[i], es[j]) < 0
  }

  ghost function InOrder(es: seq<string>, entry: string): seq<string> {
    if es == [] then [entry]
    else if StrCmp(entry, es[0]) < 0 then [entry] + es
    else if StrCmp(entry, es[0]) == 0 then es
    else [es[0]] + InOrder(es[1..], entry)
  }

  lemma {:induction false} InOrderAt(es: seq<string>, k: nat, entry: string)
    requires k <= |es|
    requires forall i | 0 <= i < k :: StrCmp(entry, es[i]) > 0
    requires k < |es| ==> StrCmp(entry, es[k]) < 0
    ensures InOrder(es, entry) == es[..k] + [entry] + es[k..]
  {
    if k > 0 {
      InOrderAt(es[1..], k - 1, entry);
      assert es[..k] == [es[0]] + es[1..][..k - 1] && es[1..][k - 1..] == es[k..];
    }
  }

  lemma {:induction false} InOrderFound(es: seq<string>, k: nat, entry: string)
    requires k < |es|
    requires forall i | 0 <= i < k :: StrCmp(entry, es[i]) > 0
    requires StrCmp(entry, es[k]) == 0
    ensures InOrder(es, entry) == es
  {
    if k > 0 {
      InOrderFound(es[1..], k - 1, entry);
    }
  }

  /** The set of entries grows by the new one and by nothing else. */
  lemma {:induction false} InOrderElems(es: seq<string>, entry: string)
    ensures Elems(InOrder(es, entry)) == Elems(es) + {entry}
  {
    if es == [] {
    } else if StrCmp(entry, es[0]) < 0 {
      ElemsCons(entry, es);
    } else {
      StrCmpZero(entry, es[0]);
      assert es == [es[0]] + es[1..];
      ElemsCons(es[0], es[1..]);
      if StrCmp(entry, es[0]) > 0 {
        InOrderElems(es[1..], entry);
        ElemsCons(es[0], InOrder(es[1..], entry));
      }
    }
  }

  lemma ElemsCons(e: string, es: seq<string>)
    ensures Elems([e] + es) == {e} + Elems(es)
  {
    var t := [e] + es;
    assert t[0] == e && forall i | 0 <= i < |es| :: t[i + 1] == es[i];
    forall x | x in Elems(t) ensures x in {e} + Elems(es) {
      var i :| 0 <= i < |t| && t[i] == x;
      if i > 0 { assert es[i - 1] == x; }
    }
    forall x | x in Elems(es) ensures x in Elems(t) {
      var i :| 0 <= i < |es| && es[i] == x;
      assert t[i + 1] == x;
    }
  }

  lemma {:induction false} InOrderAbove(lo: string, es: seq<string>, entry: string)
    requires StrCmp(lo, entry) < 0 && forall j | 0 <= j < |es| :: StrCmp(lo, es[j]) < 0
    ensures forall j | 0 <= j < |InOrder(es, entry)| :: StrCmp(lo, InOrder(es, entry)[j]) < 0
  {
    if es != [] && StrCmp(entry, es[0]) > 0 {
      InOrderAbove(lo, es[1..], entry);
    }
  }

  /** A sorted vector without duplicates stays one. */
  lemma {:induction false} InOrderAscending(es: seq<string>, entry: string)
    requires Ascending(es)
    ensures Ascending(InOrder(es, entry))
  {
    if es != [] {
      var e, t := es[0], es[1..];
      if StrCmp(entry, e) < 0 {
        forall j | 0 <= j < |es| ensures StrCmp(entry, es[j]) < 0 {
          if j > 0 { StrCmpTransitive(entry, e, es[j]); }
        }
      } else if StrCmp(entry, e) > 0 {
        InOrderAscending(t, entry);
        StrCmpZero(entry, e);
        InOrderAbove(e, t, entry);
      }
    }
  }
}
