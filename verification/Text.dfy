/** Lines and substrings of byte strings.

A byte is modelled by a `char`, a byte string by a `string`.  Nothing here depends on
the range of `char`, so every statement holds in particular for bytes. */
module Text {

  const LF: char := '\n'
  const CR: char := '\r'
  const CRLF: string := "\r\n"

  /** `k` is where a bounded readline must stop in `s`: just after the first newline,
      after `n` bytes, or at the end, whichever comes first. */
  ghost predicate IsLineEnd(s: string, n: nat, k: nat) {
    && k <= n
    && k <= |s|
    && (forall i :: 0 <= i < k - 1 ==> s[i] != LF)
    && (k == n || k == |s| || (k > 0 && s[k - 1] == LF))
  }

  /** The length of the next line of `s`, at most `n`. */
  function LineLen(s: string, n: nat): (k: nat)
    ensures IsLineEnd(s, n, k)
    ensures n > 0 && s != "" ==> k > 0
  {
    if n == 0 || s == "" then 0
    else if s[0] == LF then 1
    else 1 + LineLen(s[1..], n - 1)
  }

  /** The next line of `s`, at most `n` bytes of it. */
  function Line(s: string, n: nat): (line: string)
    ensures |line| == LineLen(s, n) && line == s[..|line|]
  {
    s[..LineLen(s, n)]
  }

  /** The stopping point of a bounded readline is unique. */
  lemma LineEndUnique(s: string, n: nat, k: nat)
    requires IsLineEnd(s, n, k)
    requires n > 0 && s != "" ==> k > 0
    ensures k == LineLen(s, n)
  {
  }

  /** What follows a line that ended before the end of `s` does not change the line. */
  lemma LineIgnoresRest(s: string, t: string, n: nat)
    requires s != "" && s[|s| - 1] == LF
    ensures Line(s + t, n) == Line(s, n)
  {
    var k := LineLen(s, n);
    if n > 0 {
      assert IsLineEnd(s + t, n, k);
    }
    LineEndUnique(s + t, n, k);
    assert (s + t)[..k] == s[..k];
  }

  /** A string with its only newline at the end, and short enough, is one line. */
  lemma WholeLine(s: string, n: nat)
    requires s != "" && s[|s| - 1] == LF && LF !in s[..|s| - 1]
    requires |s| <= n
    ensures Line(s, n) == s
  {
    assert forall i :: 0 <= i < |s| - 1 ==> s[i] == s[..|s| - 1][i];
    LineEndUnique(s, n, |s|);
  }

  lemma CRLFLine(t: string, n: nat)
    requires LF !in t && |t| + 2 <= n
    ensures Line(t + CRLF, n) == t + CRLF
  {
    WholeLine(t + CRLF, n);
  }

  /** `p` occurs in `s` at `i`. */
  predicate OccursAt(p: string, s: string, i: nat) {
    i + |p| <= |s| && s[i..i + |p|] == p
  }

  predicate Occurs(p: string, s: string) {
    exists i: nat :: i <= |s| && OccursAt(p, s, i)
  }

  lemma OccursAfter(p: string, s: string, k: nat)
    requires k <= |s| && Occurs(p, s[k..])
    ensures Occurs(p, s)
  {
    var j: nat :| j <= |s[k..]| && OccursAt(p, s[k..], j);
    assert s[k + j..k + j + |p|] == s[k..][j..j + |p|];
    assert OccursAt(p, s, k + j);
  }

  lemma OccursHere(p: string, s: string)
    requires p <= s
    ensures Occurs(p, s)
  {
    assert OccursAt(p, s, 0);
  }

  /** The number of newlines in `s`. */
  function Newlines(s: string): nat {
    if s == "" then 0 else (if s[0] == LF then 1 else 0) + Newlines(s[1..])
  }

  lemma {:induction false} NewlinesConcat(a: string, b: string)
    ensures Newlines(a + b) == Newlines(a) + Newlines(b)
  {
    if a == "" {
      assert a + b == b;
    } else {
      assert (a + b)[1..] == a[1..] + b;
      NewlinesConcat(a[1..], b);
    }
  }

  lemma {:induction false} NoNewlines(s: string)
    requires LF !in s
    ensures Newlines(s) == 0
  {
    if s != "" {
      NoNewlines(s[1..]);
    }
  }

  lemma AppendAssoc<T>(a: seq<T>, b: seq<T>, c: seq<T>)
    ensures (a + b) + c == a + (b + c)
  {
  }

  function Concat(parts: seq<string>): string {
    if parts == [] then "" else parts[0] + Concat(parts[1..])
  }

  lemma {:induction false} ConcatAppend(a: seq<string>, b: seq<string>)
    ensures Concat(a + b) == Concat(a) + Concat(b)
  {
    if a == [] {
      assert a + b == b;
    } else {
      assert (a + b)[1..] == a[1..] + b;
      ConcatAppend(a[1..], b);
    }
  }

  lemma ConcatCons(x: string, b: seq<string>)
    ensures Concat([x] + b) == x + Concat(b)
  {
    assert ([x] + b)[1..] == b;
  }

  lemma ConcatSnoc(a: seq<string>, x: string)
    ensures Concat(a + [x]) == Concat(a) + x
  {
    ConcatAppend(a, [x]);
  }

  /** Line ends written as in Unix. */
  function Unix(t: string): string
    decreases |t|
  {
    if t == "" then ""
    else if "\r\n" <= t then "\n" + Unix(t[2..])
    else [t[0]] + Unix(t[1..])
  }

  lemma UnixBreak(b: string)
    ensures Unix("\r\n" + b) == "\n" + Unix(b)
  {
    assert ("\r\n" + b)[2..] == b;
  }

  lemma UnixChar(c: char, b: string)
    requires c == CR ==> b == "" || b[0] != LF
    ensures Unix([c] + b) == [c] + Unix(b)
  {
    var s := [c] + b;
    assert s[1..] == b;
    assert |s| > 1 ==> s[1] == b[0];
  }
}
