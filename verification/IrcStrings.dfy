/** Lengths, character classes and the case mapping of the IRC daemon (RFC 1459, section 2.2). */
module IrcStrings {
  import opened Basics

  const BUFSIZE := 512
  const HOSTLEN := 63
  const NICKLEN := 30
  const USERLEN := 10
  const CHANNELLEN := 50
  const TOPICLEN := 300

  /** strlcpy into a buffer that holds n characters. */
  function Trunc(s: string, n: nat): (t: string)
    ensures t <= s && |t| == if |s| < n then |s| else n
  {
    if |s| <= n then s else s[..n]
  }

  /** {, |, } and ~ are the lower case of [, \, ] and ^. */
  function ToUpper(c: char): char {
    if 'a' <= c <= '~' then (c as int - 32) as char else c
  }

  function ToLower(c: char): char {
    if 'A' <= c <= '^' then (c as int + 32) as char else c
  }

  predicate IsSpace(c: char) {
    '\t' <= c <= '\r' || c == ' '
  }

  ghost function Upper(s: string): string {
    seq(|s|, i requires 0 <= i < |s| => ToUpper(s[i]))
  }

  /** The two tables make the same characters equal. */
  lemma SameCase(c: char, d: char)
    ensures ToUpper(c) == ToUpper(d) <==> ToLower(c) == ToLower(d)
  {
  }

  /** Two characters are the same case aside exactly as letters, or as {|}~ and [\]^, that stand for each other. */
  lemma SameCaseExactly(c: char, d: char)
    ensures ToUpper(c) == ToUpper(d) <==>
            || c == d
            || ('A' <= c <= 'Z' && d as int == c as int + 32) || ('A' <= d <= 'Z' && c as int == d as int + 32)
            || (c, d) in {('[', '{'), ('\\', '|'), (']', '}'), ('^', '~')}
            || (d, c) in {('[', '{'), ('\\', '|'), (']', '}'), ('^', '~')}
  {
  }

  lemma UpperDiffers(s1: string, s2: string, i: nat)
    requires i <= |s1| && i <= |s2|
    requires ToUpper(if i < |s1| then s1[i] else EOS) != ToUpper(if i < |s2| then s2[i] else EOS)
    ensures Upper(s1) != Upper(s2)
  {
    if |s1| == |s2| {
      assert Upper(s1)[i] != Upper(s2)[i];
    }
  }

  /** irccmp: 0 exactly for strings that are equal up to case. */
  method IrcCmp(s1: string, s2: string) returns (r: int)
    requires CString(s1) && CString(s2)
    ensures r == 0 <==> Upper(s1) == Upper(s2)
    ensures r == 0 || r == 1
  {
    var i := 0;
    while true
      invariant i <= |s1| && i <= |s2|
      invariant forall j | 0 <= j < i :: ToUpper(s1[j]) == ToUpper(s2[j])
      decreases |s1| - i
    {
      var c, d := if i < |s1| then s1[i] else EOS, if i < |s2| then s2[i] else EOS;
      if ToUpper(c) != ToUpper(d) {
        UpperDiffers(s1, s2, i);
        return 1;
      }
      if c == EOS {
        return 0;
      }
      i := i + 1;
    }
  }
}
