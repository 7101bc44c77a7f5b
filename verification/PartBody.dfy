/** When the multipart reader returns a part's content unchanged. */
module PartBody {
  import opened Multipart
  import opened Optional
  import opened Text

  /** The blocks in which a stream is read: its lines, cut every `n` bytes. */
  function Blocks(s: string, n: nat): (blocks: seq<string>)
    requires n > 0
    ensures Concat(blocks) == s
    decreases |s|
  {
    if s == "" then []
    else
      var line := Line(s, n);
      var tail := Blocks(s[|line|..], n);
      ConcatCons(line, tail);
      [line] + tail
  }

  /** Text whose last byte, if any, is a newline. */
  predicate WholeLines(s: string) {
    s != "" ==> s[|s| - 1] == LF
  }

  lemma BlockOfWholeLines(s: string, n: nat)
    requires n > 0 && s != "" && WholeLines(s)
    ensures !CutAfterCR(Line(s, n), n) && WholeLines(s[|Line(s, n)|..])
  {
    var line := Line(s, n);
    if |line| < n && |line| < |s| {
      assert line[|line| - 1] == s[|line| - 1] == LF;
    }
  }

  ghost predicate NoneIsBoundary(blocks: seq<string>, b: string) {
    forall i :: 0 <= i < |blocks| ==> MatchBoundary(blocks[i], b).None?
  }

  lemma NoneIsBoundaryCons(x: string, tail: seq<string>, b: string)
    ensures NoneIsBoundary([x] + tail, b) <==>
            MatchBoundary(x, b).None? && NoneIsBoundary(tail, b)
  {
    hide MatchBoundary;
    var all := [x] + tail;
    assert all[0] == x;
    if NoneIsBoundary(all, b) {
      assert forall i :: 0 <= i < |tail| ==> tail[i] == all[i + 1];
    }
  }

  /** The reader passes over whole lines exactly when none of their blocks is a boundary. */
  lemma {:induction false} PassesBlocks(s: string, n: nat, b: string)
    requires n > 0 && WholeLines(s)
    ensures StopAt(s, n, b) == |s| <==> NoneIsBoundary(Blocks(s, n), b)
    decreases |s|
  {
    if s != "" {
      hide MatchBoundary, CutAfterCR, Line, NoneIsBoundary;
      var line := Line(s, n);
      var rest := s[|line|..];
      BlockOfWholeLines(s, n);
      PassesBlocks(rest, n, b);
      NoneIsBoundaryCons(line, Blocks(rest, n), b);
    }
  }

  lemma DropTwice(s: string, i: nat, j: nat)
    requires i + j <= |s|
    ensures s[i..][j..] == s[i + j..]
  {
  }

  /** Whole lines followed by more: the reader looks at the lines, then at the rest. */
  lemma {:induction false} StopAtConcat(s: string, t: string, n: nat, b: string)
    requires n > 0 && WholeLines(s)
    ensures StopAt(s + t, n, b) ==
            if StopAt(s, n, b) < |s| then StopAt(s, n, b) else |s| + StopAt(t, n, b)
    decreases |s|
  {
    hide MatchBoundary, CutAfterCR, Line;
    if s == "" {
      assert s + t == t;
    } else {
      var line := Line(s, n);
      var rest := s[|line|..];
      LineIgnoresRest(s, t, n);
      BlockOfWholeLines(s, n);
      assert (s + t)[|line|..] == rest + t;
      if MatchBoundary(line, b).None? {
        StopAtConcat(rest, t, n, b);
      }
    }
  }

  /** A block that starts in whole lines ends in them. */
  lemma BlockStaysInLines(s: string, t: string, k: nat, n: nat)
    requires n > 0 && WholeLines(s) && k < |s|
    ensures k + |Line((s + t)[k..], n)| <= |s|
  {
    assert (s + t)[k..] == s[k..] + t;
    LineIgnoresRest(s[k..], t, n);
  }

  /** A part as it stands in a stream: content, line break, delimiter line, what follows. */
  function Framed(content: string, b: string, last: bool, rest: string): string {
    (content + CRLF) + (Delimiter(b, last) + rest)
  }

  /** The content comes back unchanged, and the reader ends right after the delimiter line. */
  ghost predicate ReadsBack(content: string, b: string, last: bool, rest: string, n: nat)
    requires n > 0
  {
    ReadPart(Framed(content, b, last, rest), n, b) == PartRead(content, rest, Returned(last))
  }

  lemma StopAtDelimiter(b: string, last: bool, rest: string, n: nat)
    requires LF !in b && |b| + 6 <= n
    ensures StopAt(Delimiter(b, last) + rest, n, b) == 0
  {
    hide Delimiter;
    DelimiterMatches(b, last, n, rest);
  }

  lemma WithoutCRLF(c: string)
    ensures WithoutTrailingBreak(c + CRLF) == c
  {
    assert (c + CRLF)[|c|] == CR && (c + CRLF)[|c| + 1] == LF;
    assert (c + CRLF)[..|c|] == c;
  }

  /** Exactly when the content is read back: no block of it may look like a boundary line. */
  lemma PartReadsBackIff(content: string, b: string, last: bool, rest: string, n: nat)
    requires LF !in b && |b| + 6 <= n
    ensures ReadsBack(content, b, last, rest, n) <==> NoneIsBoundary(Blocks(content + CRLF, n), b)
  {
    hide MatchBoundary, CutAfterCR, WithoutTrailingBreak, StopAt, Blocks;
    var lines := content + CRLF;
    var d := Delimiter(b, last);
    var s := Framed(content, b, last, rest);
    assert s == lines + (d + rest);
    assert lines[|lines| - 1] == LF;
    PassesBlocks(lines, n, b);
    StopAtConcat(lines, d + rest, n, b);
    StopAtDelimiter(b, last, rest, n);
    if StopAt(lines, n, b) == |lines| {
      var k := |lines|;
      assert StopAt(s, n, b) == k && k < |s|;
      assert s[k..] == d + rest && s[..k] == lines;
      assert Line(s[k..], n) == d && MatchBoundary(d, b) == Some(last) by {
        hide Delimiter;
        DelimiterMatches(b, last, n, rest);
      }
      WithoutCRLF(content);
      assert s[k + |d|..] == rest;
      assert ReadPart(s, n, b) == PartRead(content, rest, Returned(last));
    } else {
      var k := StopAt(lines, n, b);
      BlockStaysInLines(lines, d + rest, k, n);
      assert |ReadPart(s, n, b).rest| >= |d| + |rest|;
    }
  }

  lemma {:induction false} BlocksOccur(s: string, n: nat, i: nat)
    requires n > 0 && i < |Blocks(s, n)|
    ensures Occurs(Blocks(s, n)[i], s)
    decreases |s|
  {
    hide Line, Occurs;
    var line := Line(s, n);
    var rest := s[|line|..];
    if i == 0 {
      OccursHere(line, s);
    } else {
      BlocksOccur(rest, n, i - 1);
      OccursAfter(Blocks(rest, n)[i - 1], s, |line|);
    }
  }

  lemma PrefixOccurs(p: string, block: string, s: string)
    requires p <= block && Occurs(block, s)
    ensures Occurs(p, s)
  {
    var j: nat :| j <= |s| && OccursAt(block, s, j);
    assert s[j..j + |p|] == s[j..j + |block|][..|p|];
    assert OccursAt(p, s, j);
  }

  /** A content in which the dashed boundary does not occur is always read back, even when a
      block ends between a carriage return and its newline. */
  lemma PartReadsBack(content: string, b: string, last: bool, rest: string, n: nat)
    requires LF !in b && |b| + 6 <= n
    requires !Occurs("--" + b, content + CRLF)
    ensures ReadsBack(content, b, last, rest, n)
  {
    hide ReadsBack, Occurs, Blocks;
    var lines := content + CRLF;
    forall i | 0 <= i < |Blocks(lines, n)| ensures MatchBoundary(Blocks(lines, n)[i], b).None? {
      BlocksOccur(lines, n, i);
      var block := Blocks(lines, n)[i];
      if MatchBoundary(block, b).Some? {
        PrefixOccurs("--" + b, block, lines);
        assert false;
      }
    }
    PartReadsBackIff(content, b, last, rest, n);
  }

  /** `n` times the byte x. */
  function Filler(n: nat): string {
    seq(n, _ => 'x')
  }

  lemma FillerBlock(n: nat, t: string)
    requires n > 0
    ensures Line(Filler(n) + t, n) == Filler(n)
  {
    var s := Filler(n) + t;
    assert IsLineEnd(s, n, n);
    LineEndUnique(s, n, n);
    assert s[..n] == Filler(n);
  }

  /** The delimiter of section 5.1.1 of RFC 2046 begins with a line break.  The reader also
      takes one at the start of a block in the middle of a line: for every block size there is
      a content without any line break that it cuts short. */
  lemma LongLineIsCut(b: string, last: bool, rest: string, n: nat)
    requires LF !in b && |b| + 6 <= n
    ensures var content := Filler(n) + ("--" + b);
            && LF !in content
            && ReadPart(Framed(content, b, last, rest), n, b) ==
                 PartRead(Filler(n), Delimiter(b, last) + rest, Returned(false))
  {
    hide StopAt, Line, MatchBoundary;
    var d := Delimiter(b, last) + rest;
    FillerFramed(b, last, rest, n);
    hide Delimiter, Framed;
    var s := Filler(n) + (Delimiter(b, false) + d);
    FillerStops(b, d, n);
    assert s[..n] == Filler(n);
    assert Filler(n)[n - 1] == 'x';
  }

  lemma FillerFramed(b: string, last: bool, rest: string, n: nat)
    ensures Framed(Filler(n) + ("--" + b), b, last, rest) ==
            Filler(n) + (Delimiter(b, false) + (Delimiter(b, last) + rest))
  {
    var d := Delimiter(b, last) + rest;
    AppendAssoc(Filler(n), "--" + b, CRLF);
    assert "--" + b + CRLF == Delimiter(b, false) by { assert "--" + b + "" == "--" + b; }
    AppendAssoc(Filler(n), Delimiter(b, false), d);
  }

  lemma FillerStops(b: string, d: string, n: nat)
    requires LF !in b && |b| + 6 <= n
    ensures var s := Filler(n) + (Delimiter(b, false) + d);
            StopAt(s, n, b) == n && Line(s[n..], n) == Delimiter(b, false) && s[n + |b| + 4..] == d
    ensures MatchBoundary(Delimiter(b, false), b) == Some(false)
    ensures |Delimiter(b, false)| == |b| + 4
  {
    hide Delimiter, Line;
    var after := Delimiter(b, false) + d;
    var s := Filler(n) + after;
    FillerBlock(n, after);
    DelimiterMatches(b, false, n, d);
    DelimiterSize(b);
    assert s[n..] == after && after[|b| + 4..] == d;
    DropTwice(s, n, |b| + 4);
    assert Filler(n)[0] == 'x';
    assert MatchBoundary(Filler(n), b).None?;
    assert StopAt(after, n, b) == 0;
  }

  lemma DelimiterSize(b: string)
    ensures |Delimiter(b, false)| == |b| + 4
  {
  }

  /** The first line is the delimiter and some of what follows, as much as there is of a line break. */
  lemma OpenLine(d: string, tail: string, n: nat) returns (u: string)
    requires LF !in d && |d| + 2 <= n
    ensures Line(d + tail, n) == d + u && (StartsEol(u) <==> StartsEol(tail))
  {
    var s := d + tail;
    var line := Line(s, n);
    assert forall i :: 0 <= i < |d| ==> s[i] == d[i];
    assert forall i :: 0 <= i < |tail| ==> s[|d| + i] == tail[i];
    u := line[|d|..];
    assert forall i :: 0 <= i < |u| ==> u[i] == tail[i];
    assert line == d + u;
  }

  /** A boundary within the first `m` bytes leaves fewer to be written. */
  lemma StopsWithin(s: string, m: nat, n: nat, b: string)
    requires n > 0 && StopAt(s, n, b) < m <= |s|
    requires StopAt(s, n, b) + |Line(s[StopAt(s, n, b)..], n)| <= m
    ensures var r := ReadPart(s, n, b);
            r.outcome == AssertionError || |r.body| + 3 <= m
  {
    hide Line, StopAt;
  }

  lemma TrailingSize(s: string)
    ensures |s| - 2 <= |WithoutTrailingBreak(s)| <= |s|
  {
  }

  /** After whole lines that are passed over, the first line of the rest decides. */
  lemma NextDecides(lines: string, d: string, last: bool, n: nat, b: string)
    requires n > 0 && WholeLines(lines) && StopAt(lines, n, b) == |lines| && d != ""
    ensures var r := ReadPart(lines + d, n, b);
            if MatchBoundary(Line(d, n), b) == Some(last) then
              r.body == WithoutTrailingBreak(lines) && r.outcome == Returned(last)
            else
              r.outcome != Returned(last) || |r.body| > |lines| - 2
  {
    var s, line := lines + d, Line(d, n);
    StopAtConcat(lines, d, n, b);
    assert s[|lines|..] == d && s[..|lines|] == lines;
    hide MatchBoundary, WithoutTrailingBreak, Line, CutAfterCR;
    var k := StopAt(s, n, b);
    TrailingSize(s[..k]);
  }

  /** The delimiter is recognised if and only if a line break follows it at once: at the end of a
      stream, where section 5.1.1 of RFC 2046 lets the closing delimiter stand without one, and before
      padding, it is taken for content. */
  lemma CloseIsReadIff(content: string, b: string, last: bool, tail: string, n: nat)
    requires LF !in b && |b| + 6 <= n
    ensures var r := ReadPart((content + CRLF) + (OpenDelimiter(b, last) + tail), n, b);
            r.body == content && r.outcome == Returned(last) <==>
            NoneIsBoundary(Blocks(content + CRLF, n), b) && ("\n" <= tail || "\r\n" <= tail)
  {
    assert StartsEol(tail) <==> "\n" <= tail || "\r\n" <= tail;
    hide MatchBoundary, CutAfterCR, StopAt, Blocks, OpenDelimiter, Line, NoneIsBoundary, StartsEol, ReadPart,
         WithoutTrailingBreak;
    var lines, d := content + CRLF, OpenDelimiter(b, last) + tail;
    assert lines[|lines| - 1] == LF;
    PassesBlocks(lines, n, b);
    StopAtConcat(lines, d, n, b);
    OpenSize(b, last);
    if StopAt(lines, n, b) < |lines| {
      BlockStaysInLines(lines, d, StopAt(lines, n, b), n);
      StopsWithin(lines + d, |lines|, n, b);
    } else {
      var u := OpenLine(OpenDelimiter(b, last), tail, n);
      OpenMatchesIff(b, last, u);
      WithoutCRLF(content);
      NextDecides(lines, d, last, n, b);
    }
  }

  /** A closing delimiter that ends the stream becomes part of the value. */
  lemma OpenIsContent(content: string, b: string, n: nat)
    requires LF !in b && |b| + 6 <= n && NoneIsBoundary(Blocks(content + CRLF, n), b)
    ensures var s := (content + CRLF) + OpenDelimiter(b, true);
            ReadPart(s, n, b) == PartRead(s, "", Returned(true))
  {
    hide Blocks, NoneIsBoundary, Line, WithoutTrailingBreak;
    var lines, d := content + CRLF, OpenDelimiter(b, true);
    assert lines[|lines| - 1] == LF;
    PassesBlocks(lines, n, b);
    StopAtConcat(lines, d, n, b);
    OpenSize(b, true);
    WholeIsLine(d, n);
    assert d[|b| + 2..] == "--" && d[..|b| + 2] == "--" + b;
    assert d[|d| - 1] == '-' && d[|d|..] == "";
    assert StopAt(d, n, b) == |d|;
  }

  lemma WholeIsLine(d: string, n: nat)
    requires LF !in d && 0 < |d| <= n
    ensures Line(d, n) == d
  {
    LineEndUnique(d, n, |d|);
  }

  /** What follows the last newline. */
  function LastLine(s: string): string {
    if s == "" || s[|s| - 1] == LF then "" else LastLine(s[..|s| - 1]) + s[|s| - 1..]
  }

  lemma LastLineStep(init: string, c: char)
    ensures LastLine(init + [c]) == if c == LF then "" else LastLine(init) + [c]
  {
    assert (init + [c])[..|init|] == init;
  }

  lemma {:induction false} LastLineConcat(a: string, t: string)
    ensures LastLine(a + t) == if LF in t then LastLine(t) else LastLine(a) + t
    decreases |t|
  {
    hide LastLine;
    if t == "" {
      assert a + t == a && LastLine(a) + t == LastLine(a);
    } else {
      var init, c := t[..|t| - 1], t[|t| - 1];
      assert t == init + [c];
      AppendAssoc(a, init, [c]);
      LastLineStep(a + init, c);
      LastLineStep(init, c);
      LastLineConcat(a, init);
      AppendAssoc(LastLine(a), init, [c]);
    }
  }

  lemma LastLineWhole(s: string)
    requires LF !in s
    ensures LastLine(s) == s
  {
    LastLineConcat("", s);
    assert "" + s == s;
  }

  /** The stream ends in a carriage return, and its last line does not fill its last block. */
  predicate IsCut(s: string, n: nat)
    requires n > 0
  {
    EndsCR(s) && |LastLine(s)| % n != 0
  }

  lemma CutAtEndIff(s: string, n: nat)
    requires n > 0 && s != "" && Line(s, n) == s
    ensures CutAfterCR(s, n) <==> IsCut(s, n)
  {
    hide LastLine, Line;
    assert |s| <= n;
    if EndsCR(s) {
      LastLineWhole(s);
      SmallModIff(|s|, n);
    }
  }

  lemma SmallModIff(k: nat, n: nat)
    requires 0 < k <= n
    ensures k % n != 0 <==> k < n
  {
  }

  lemma NextMod(k: nat, n: nat)
    requires n > 0
    ensures (n + k) % n == k % n
  {
    var d := (n + k) / n - k / n - 1;
    AtLeast(d, n);
    assert d * n == k % n - (n + k) % n;
  }

  lemma AtLeast(d: int, n: int)
    requires n > 0
    ensures d >= 1 ==> d * n >= n
    ensures d <= -1 ==> d * n <= -n
  {
  }

  lemma EndsLine(line: string)
    requires line != "" && line[|line| - 1] == LF
    ensures LastLine(line) == ""
  {
  }

  lemma LastLineAfter(line: string, rest: string, n: nat)
    requires n > 0 && line != "" && (line[|line| - 1] == LF || (LF !in line && |line| == n))
    ensures |LastLine(line + rest)| % n == |LastLine(rest)| % n
  {
    hide LastLine;
    LastLineConcat(line, rest);
    if LF !in rest {
      LastLineWhole(rest);
      if line[|line| - 1] == LF {
        EndsLine(line);
      } else {
        LastLineWhole(line);
        NextMod(|rest|, n);
      }
    }
  }

  /** Only the last block is cut. */
  lemma CutLaterIff(s: string, n: nat)
    requires n > 0 && s != "" && Line(s, n) != s
    ensures var line := Line(s, n);
            !CutAfterCR(line, n) && (IsCut(s, n) <==> IsCut(s[|line|..], n))
  {
    hide LastLine;
    var line := Line(s, n);
    var rest := s[|line|..];
    assert s == line + rest && rest != "";
    assert line[|line| - 1] == LF || (LF !in line && |line| == n);
    hide Line;
    LastLineAfter(line, rest, n);
    assert s[|s| - 1] == rest[|rest| - 1];
  }

  /** How the reader stops: at a boundary line, or at a block that is cut, or only at the end. */
  function StopKind(s: string, n: nat, b: string): Option<bool>
    requires n > 0
  {
    var k := StopAt(s, n, b);
    if k == |s| then None else Some(MatchBoundary(Line(s[k..], n), b).Some?)
  }

  lemma StopKindStep(s: string, n: nat, b: string)
    requires n > 0 && s != ""
    ensures var line := Line(s, n);
            StopKind(s, n, b) == if MatchBoundary(line, b).Some? then Some(true)
                                 else if CutAfterCR(line, n) then Some(false)
                                 else StopKind(s[|line|..], n, b)
  {
    hide MatchBoundary, CutAfterCR, Line;
    var line := Line(s, n);
    var k := StopAt(s[|line|..], n, b);
    assert s[|line|..][k..] == s[|line| + k..] && s[0..] == s;
  }

  lemma BlocksStep(s: string, n: nat, b: string)
    requires n > 0 && s != ""
    ensures var line := Line(s, n);
            NoneIsBoundary(Blocks(s, n), b) <==>
            MatchBoundary(line, b).None? && NoneIsBoundary(Blocks(s[|line|..], n), b)
  {
    hide Line, MatchBoundary, NoneIsBoundary;
    NoneIsBoundaryCons(Line(s, n), Blocks(s[|Line(s, n)|..], n), b);
  }

  lemma NothingStops(n: nat, b: string)
    requires n > 0
    ensures StopKind("", n, b) == None && NoneIsBoundary(Blocks("", n), b) && !IsCut("", n)
  {
  }

  lemma {:induction false} StreamStops(s: string, n: nat, b: string)
    requires n > 0
    ensures StopKind(s, n, b) == if !NoneIsBoundary(Blocks(s, n), b) then Some(true)
                                 else if IsCut(s, n) then Some(false)
                                 else None
    decreases |s|
  {
    hide StopKind, NoneIsBoundary, IsCut, Line, MatchBoundary, CutAfterCR, Blocks;
    if s == "" {
      NothingStops(n, b);
    } else {
      var rest := s[|Line(s, n)|..];
      StopKindStep(s, n, b);
      BlocksStep(s, n, b);
      StreamStops(rest, n, b);
      if Line(s, n) == s {
        CutAtEndIff(s, n);
        NothingStops(n, b);
      } else {
        CutLaterIff(s, n);
      }
    }
  }

  /** A stream fails if and only if no block of it is a boundary, and it ends in a carriage return
      with a last line that does not fill its last block.  Without a boundary, all of any other stream
      is content. */
  lemma CutStreamIff(s: string, n: nat, b: string)
    requires n > 0
    ensures ReadPart(s, n, b).outcome == AssertionError <==>
            NoneIsBoundary(Blocks(s, n), b) && EndsCR(s) && |LastLine(s)| % n != 0
    ensures NoneIsBoundary(Blocks(s, n), b) && !(EndsCR(s) && |LastLine(s)| % n != 0) ==>
              ReadPart(s, n, b) == PartRead(s, "", Returned(true))
  {
    assert IsCut(s, n) <==> EndsCR(s) && |LastLine(s)| % n != 0;
    hide IsCut, EndsCR, MatchBoundary, CutAfterCR, LastLine, Blocks, WithoutTrailingBreak, Line, NoneIsBoundary;
    StreamStops(s, n, b);
  }
}
