/** The byte-string methods of Python that the form parser uses. */
module Bytes {
  /** The index of the first `c` in `s`, or the length of `s`. */
  function IndexOf(s: string, c: char): (i: nat)
    ensures i <= |s| && c !in s[..i] && (i < |s| ==> s[i] == c)
  {
    if s == "" || s[0] == c then 0
    else
      var i := 1 + IndexOf(s[1..], c);
      assert s[..i] == [s[0]] + s[1..][..i - 1];
      i
  }

  lemma IndexOfIs(s: string, c: char, i: nat)
    requires i <= |s| && (forall k :: 0 <= k < i ==> s[k] != c)
    requires i < |s| ==> s[i] == c
    ensures IndexOf(s, c) == i
  {
  }

  lemma IndexOfConcat(a: string, c: char, t: string)
    requires c !in a
    ensures IndexOf(a + [c] + t, c) == |a|
  {
    var s := a + [c] + t;
    var i := IndexOf(s, c);
    assert s[|a|] == c;
    assert forall k :: 0 <= k < i ==> s[k] in s[..i];
    assert forall k :: 0 <= k < |a| ==> s[k] in a;
  }

  /** `s.split(c)`. */
  function Split(s: string, c: char): (parts: seq<string>)
    ensures |parts| > 0
    decreases |s|
  {
    var i := IndexOf(s, c);
    if i == |s| then [s] else [s[..i]] + Split(s[i + 1..], c)
  }

  lemma SplitHead(a: string, c: char, t: string)
    requires c !in a
    ensures Split(a + [c] + t, c) == [a] + Split(t, c)
  {
    IndexOfConcat(a, c, t);
    var s := a + [c] + t;
    assert s[..|a|] == a && s[|a| + 1..] == t;
  }

  lemma SplitWhole(s: string, c: char)
    requires c !in s
    ensures Split(s, c) == [s]
  {
    assert forall k :: 0 <= k < |s| ==> s[k] in s;
  }

  lemma {:induction false} SplitPieces(s: string, c: char)
    ensures forall i :: 0 <= i < |Split(s, c)| ==> c !in Split(s, c)[i]
    decreases |s|
  {
    var i := IndexOf(s, c);
    if i < |s| {
      SplitPieces(s[i + 1..], c);
    } else {
      assert s[..i] == s;
    }
  }

  /** ASCII white space, as `strip` removes it. */
  predicate IsSpace(c: char) {
    c == ' ' || '\t' <= c <= '\r'
  }

  function StripLeft(s: string): (r: string)
    ensures |r| <= |s| && s[|s| - |r|..] == r
  {
    if s != "" && IsSpace(s[0]) then StripLeft(s[1..]) else s
  }

  function StripRight(s: string): (r: string)
    ensures r <= s
  {
    if s != "" && IsSpace(s[|s| - 1]) then StripRight(s[..|s| - 1]) else s
  }

  function Strip(s: string): (r: string)
    ensures forall c :: c in r ==> c in s
  {
    StripRight(StripLeft(s))
  }

  /** White space around a core that has none at its ends is what `strip` removes. */
  lemma StripCore(left: string, core: string, right: string)
    requires forall c :: c in left + right ==> IsSpace(c)
    requires core != "" && !IsSpace(core[0]) && !IsSpace(core[|core| - 1])
    ensures Strip(left + core + right) == core
    decreases |left| + |right|
  {
    var s := left + core + right;
    if left != "" {
      assert left[0] in left + right;
      assert s[1..] == left[1..] + core + right;
      StripCore(left[1..], core, right);
    } else {
      assert s == core + right;
      StripRightCore(core, right);
    }
  }

  lemma StripRightCore(core: string, right: string)
    requires forall c :: c in right ==> IsSpace(c)
    requires core != "" && !IsSpace(core[|core| - 1])
    ensures StripRight(core + right) == core
  {
    if right == "" {
      assert core + right == core;
    } else {
      var s := core + right;
      assert s[|s| - 1] == right[|right| - 1];
      assert s[..|s| - 1] == core + right[..|right| - 1];
      StripRightCore(core, right[..|right| - 1]);
    }
  }

  predicate IsBlanks(s: string) {
    forall c :: c in s ==> IsSpace(c)
  }

  /** There is no blank at either end. */
  predicate IsTrimmed(s: string) {
    s != "" ==> !IsSpace(s[0]) && !IsSpace(s[|s| - 1])
  }

  lemma BlanksConcat(a: string, b: string)
    requires IsBlanks(a) && IsBlanks(b)
    ensures IsBlanks(a + b)
  {
  }

  lemma {:induction false} StripBlanks(s: string)
    requires IsBlanks(s)
    ensures Strip(s) == ""
    decreases |s|
  {
    if s != "" {
      assert s[0] in s;
      assert IsBlanks(s[1..]) by {
        assert forall c :: c in s[1..] ==> c in s;
      }
      StripBlanks(s[1..]);
    }
  }

  lemma StripTrimmed(left: string, core: string, right: string)
    requires IsBlanks(left) && IsBlanks(right) && IsTrimmed(core)
    ensures Strip(left + core + right) == core
  {
    hide Strip;
    BlanksConcat(left, right);
    if core == "" {
      assert left + core + right == left + right;
      StripBlanks(left + right);
    } else {
      StripCore(left, core, right);
    }
  }

  lemma BlankIsNot(s: string, c: char)
    requires IsBlanks(s) && !IsSpace(c)
    ensures c !in s
  {
  }

  function LowerChar(c: char): char {
    if 'A' <= c <= 'Z' then c + ' ' else c
  }

  function Lower(s: string): (r: string)
    ensures |r| == |s| && forall i :: 0 <= i < |s| ==> r[i] == LowerChar(s[i])
  {
    seq(|s|, i requires 0 <= i < |s| => LowerChar(s[i]))
  }

  lemma LowerFixed(s: string)
    requires forall c :: c in s ==> !('A' <= c <= 'Z')
    ensures Lower(s) == s
  {
    assert forall i :: 0 <= i < |s| ==> s[i] in s;
  }
}
