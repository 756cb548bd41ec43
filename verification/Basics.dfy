/** What every part of the model shares: optional values, C strings and their order. */
module Basics {
  datatype Option<+T> = None | Some(value: T)

  const EOS := '\0'

  ghost predicate Distinct<X>(s: seq<X>) {
    forall i, j | 0 <= i < j < |s| :: s[i] != s[j]
  }

  ghost function Elems<X>(s: seq<X>): set<X> {
    set x | x in s
  }

  /** The sequence without the item at index k. */
  ghost function RemoveAt<X>(s: seq<X>, k: nat): seq<X> {
    if k < |s| then s[..k] + s[k + 1..] else s
  }

  /** A C string is a sequence of characters without its terminating EOS. */
  ghost predicate CString(s: seq<char>) {
    forall i | 0 <= i < |s| :: s[i] != EOS
  }

  /** The sign of strcmp: characters compare as unsigned bytes, the end of a string first. */
  ghost function StrCmp(a: string, b: string): int {
    if a == "" && b == "" then 0
    else if a == "" then -1
    else if b == "" then 1
    else if a[0] < b[0] then -1
    else if a[0] > b[0] then 1
    else StrCmp(a[1..], b[1..])
  }

  lemma {:induction false} StrCmpZero(a: string, b: string)
    ensures StrCmp(a, b) == 0 <==> a == b
    ensures StrCmp(a, b) == -StrCmp(b, a)
  {
    if a != "" && b != "" && a[0] == b[0] {
      StrCmpZero(a[1..], b[1..]);
      assert a == [a[0]] + a[1..] && b == [b[0]] + b[1..];
    }
  }

  lemma {:induction false} StrCmpTransitive(a: string, b: string, c: string)
    requires StrCmp(a, b) < 0 && StrCmp(b, c) < 0
    ensures StrCmp(a, c) < 0
  {
    if a != "" && b != "" && c != "" && a[0] == b[0] == c[0] {
      StrCmpTransitive(a[1..], b[1..], c[1..]);
    }
  }

  /** The first difference decides; a string that ends there comes before one that goes on. */
  lemma {:induction false} StrCmpExactly(common: string, a: string, b: string)
    requires a == "" || b == "" || a[0] != b[0]
    ensures StrCmp(common + a, common + b) < 0 <==> b != "" && (a == "" || a[0] < b[0])
  {
    if common == "" {
      assert common + a == a && common + b == b;
    } else {
      assert (common + a)[1..] == common[1..] + a && (common + b)[1..] == common[1..] + b;
      StrCmpExactly(common[1..], a, b);
    }
  }

  /** The text of a buffer up to its first EOS. */
  function CText(s: seq<char>): string {
    if s == [] || s[0] == EOS then "" else [s[0]] + CText(s[1..])
  }

  lemma {:induction false} CTextIs(s: seq<char>, n: nat)
    requires n < |s| && s[n] == EOS && EOS !in s[..n]
    ensures CText(s) == s[..n]
  {
    if n > 0 {
      assert s[0] == s[..n][0];
      assert s[1..][..n - 1] == s[..n][1..];
      CTextIs(s[1..], n - 1);
      assert s[..n] == [s[0]] + s[1..][..n - 1];
    }
  }

  lemma Assoc<T>(a: seq<T>, b: seq<T>, c: seq<T>)
    ensures a + (b + c) == a + b + c
  {
  }

  // ---------------------------------------------------------------------------------------
  // Histories
  // ---------------------------------------------------------------------------------------

  /** Event i, before n, switched something on, and none between them switched it off. */
  ghost predicate Since(on: nat -> bool, off: nat -> bool, n: nat, i: nat) {
    i < n && on(i) && forall j: nat | i < j < n :: !off(j)
  }

  ghost predicate Stands(on: nat -> bool, off: nat -> bool, n: nat) {
    exists i: nat :: Since(on, off, n, i)
  }

  lemma StandsNext(on: nat -> bool, off: nat -> bool, n: nat)
    ensures Stands(on, off, n + 1) <==> on(n) || (Stands(on, off, n) && !off(n))
  {
    var m := n + 1;
    if on(n) {
      assert Since(on, off, m, n);
    } else {
      if i: nat :| Since(on, off, m, i) {
        assert Since(on, off, n, i);
      }
      if i: nat :| Since(on, off, n, i) && !off(n) {
        assert Since(on, off, m, i);
      }
    }
  }

  /** The step behind item i keeps a property. */
  ghost predicate KeepsAt<S>(ts: seq<S>, inv: S -> bool, i: nat) {
    i + 1 < |ts| && inv(ts[i]) ==> inv(ts[i + 1])
  }

  /** A property that every step keeps holds for as long as the sequence goes on. */
  lemma {:induction false} Invariant<S>(ts: seq<S>, inv: S -> bool, n: nat)
    requires n < |ts| && inv(ts[0]) && forall i: nat | i < n :: KeepsAt(ts, inv, i)
    ensures inv(ts[n])
  {
    if n > 0 {
      Invariant(ts, inv, n - 1);
      assert KeepsAt(ts, inv, n - 1);
    }
  }
}
