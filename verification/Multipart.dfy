/** Reading one body of a multipart form up to the next boundary line
    (`FieldStorage.read_to_boundary`, lib/python/mod_python/util.py). */
module Multipart {
  import opened Optional
  import opened RequestBody
  import opened Text

  /** A file or an in-memory buffer the body is written to. */
  class File {
    var data: string

    constructor ()
      ensures data == ""
    {
      data := "";
    }

    method Write(s: string)
      modifies this
      ensures data == old(data) + s
    {
      data := data + s;
    }
  }

  predicate StartsEol(s: string) {
    "\n" <= s || "\r\n" <= s
  }

  /** Matches a line against `--b(--)?\r?\n`; the value tells whether the group matched. */
  function MatchBoundary(line: string, b: string): Option<bool> {
    var dashB := "--" + b;
    if !(dashB <= line) then None
    else
      var t := line[|dashB|..];
      if "--" <= t && StartsEol(t[2..]) then Some(true)
      else if StartsEol(t) then Some(false)
      else None
  }

  /** A delimiter line without its line break. */
  function OpenDelimiter(b: string, last: bool): string {
    "--" + b + (if last then "--" else "")
  }

  /** The delimiter line that ends a part, or, when `last`, the whole form. */
  function Delimiter(b: string, last: bool): (d: string)
    ensures |d| >= |b| + 4 && d[|d| - 1] == LF
  {
    OpenDelimiter(b, last) + CRLF
  }

  lemma OpenMatchesIff(b: string, last: bool, u: string)
    ensures MatchBoundary(OpenDelimiter(b, last) + u, b) == Some(last) <==> StartsEol(u)
  {
    var line := OpenDelimiter(b, last) + u;
    assert line[..|b| + 2] == "--" + b;
    var t := line[|b| + 2..];
    if last {
      assert t == "--" + u && t[2..] == u;
    } else {
      assert t == u;
      assert StartsEol(u) ==> u[0] != '-';
    }
    assert "--" + b <= line;
  }

  lemma OpenSize(b: string, last: bool)
    requires LF !in b
    ensures LF !in OpenDelimiter(b, last) && 2 <= |OpenDelimiter(b, last)| <= |b| + 4
  {
  }

  lemma DelimiterMatches(b: string, last: bool, n: nat, rest: string)
    requires LF !in b && |b| + 6 <= n
    ensures Line(Delimiter(b, last) + rest, n) == Delimiter(b, last)
    ensures MatchBoundary(Delimiter(b, last), b) == Some(last)
  {
    hide OpenDelimiter, MatchBoundary, Line;
    OpenSize(b, last);
    OpenMatchesIff(b, last, CRLF);
    CRLFLine(OpenDelimiter(b, last), n);
    LineIgnoresRest(Delimiter(b, last), rest, n);
  }

  /** A block ending in a carriage return that is shorter than the block size: the body
      stopped there, and the reader's assertion about the block size fails. */
  predicate CutAfterCR(line: string, n: nat) {
    EndsCR(line) && |line| < n
  }

  /** Where the reader stops in `s`: at the first block that is a boundary line or is cut
      after a carriage return, or else at the end. */
  function StopAt(s: string, n: nat, b: string): (k: nat)
    requires n > 0
    ensures k <= |s|
    decreases |s|
  {
    var line := Line(s, n);
    if s == "" || MatchBoundary(line, b).Some? || CutAfterCR(line, n) then 0
    else |line| + StopAt(s[|line|..], n, b)
  }

  predicate EndsCRLF(s: string) {
    |s| >= 2 && s[|s| - 2] == CR && s[|s| - 1] == LF
  }

  predicate EndsCR(s: string) {
    |s| >= 1 && s[|s| - 1] == CR
  }

  /** The line break at the end of `s`, complete or cut after its carriage return, which
      may turn out to belong to a boundary. */
  function TrailingBreak(s: string): (t: string) {
    if EndsCRLF(s) then CRLF
    else if EndsCR(s) then "\r"
    else ""
  }

  function WithoutTrailingBreak(s: string): (r: string)
    ensures r + TrailingBreak(s) == s
  {
    if EndsCRLF(s) then
      assert s == s[..|s| - 2] + [s[|s| - 2], s[|s| - 1]];
      s[..|s| - 2]
    else if EndsCR(s) then
      assert s == s[..|s| - 1] + [s[|s| - 1]];
      s[..|s| - 1]
    else s
  }

  datatype Outcome = Returned(last: bool) | AssertionError

  /** What one call does on a stream: what it writes, what it leaves, how it ends. */
  datatype PartRead = PartRead(body: string, rest: string, outcome: Outcome)

  /** The reader's contract on a stream `s`: it writes what precedes the boundary line less
      the line break in front of it, and consumes the boundary line; without one it writes
      everything. */
  function ReadPart(s: string, n: nat, b: string): PartRead
    requires n > 0
  {
    var k := StopAt(s, n, b);
    var line := Line(s[k..], n);
    if k == |s| then PartRead(s, "", Returned(true))
    else
      PartRead(WithoutTrailingBreak(s[..k]), s[k + |line|..],
               match MatchBoundary(line, b)
               case Some(last) => Returned(last)
               case None => AssertionError)
  }

  /** What the reader holds back after consuming `s`. */
  function Held(s: string): Option<string> {
    var t := TrailingBreak(s);
    if t == "" then None else Some(t)
  }

  /** What the reader writes when it consumes `line` while holding back `held`. */
  function Written(held: string, line: string): string {
    if EndsCRLF(line) then held + line[..|line| - 2]
    else if EndsCR(line) then held + line[..|line| - 1]
    else if line == "\n" && held == "\r" then ""
    else held + line
  }

  /** The trailing break after consuming `line` while holding back `held`. */
  function NewBreak(held: string, line: string): string {
    if EndsCRLF(line) then CRLF
    else if EndsCR(line) then "\r"
    else if line == "\n" && held == "\r" then CRLF
    else ""
  }

  /** How the trailing break changes when a block is consumed. */
  lemma NextBreak(consumed: string, line: string)
    requires line != ""
    ensures TrailingBreak(consumed + line) == NewBreak(TrailingBreak(consumed), line)
  {
    var s := consumed + line;
    assert s[|s| - 1] == line[|line| - 1];
    if |line| >= 2 {
      assert s[|s| - 2] == line[|line| - 2];
    } else if consumed != "" {
      assert s[|s| - 2] == consumed[|consumed| - 1];
    }
  }

  lemma EndSplit(line: string)
    ensures EndsCRLF(line) ==> line == line[..|line| - 2] + CRLF
    ensures EndsCR(line) ==> line == line[..|line| - 1] + "\r"
  {
  }

  lemma WrittenAndHeld(held: string, line: string)
    ensures Written(held, line) + NewBreak(held, line) == held + line
  {
    EndSplit(line);
    if EndsCRLF(line) {
      AppendAssoc(held, line[..|line| - 2], CRLF);
    } else if EndsCR(line) {
      AppendAssoc(held, line[..|line| - 1], "\r");
    } else if line == "\n" && held == "\r" {
      assert "" + CRLF == held + line;
    } else {
      assert (held + line) + "" == held + line;
    }
  }

  lemma CancelRight(a: string, b: string, t: string)
    requires a + t == b + t
    ensures a == b
  {
    assert a == (a + t)[..|a + t| - |t|];
    assert b == (b + t)[..|b + t| - |t|];
  }

  /** Nothing is lost: what was written and what is held back are all that was consumed. */
  lemma NextWritten(consumed: string, line: string)
    requires line != ""
    ensures WithoutTrailingBreak(consumed + line) ==
              WithoutTrailingBreak(consumed) + Written(TrailingBreak(consumed), line)
  {
    hide Written, NewBreak, TrailingBreak, WithoutTrailingBreak;
    NextBreak(consumed, line);
    var held, kept := TrailingBreak(consumed), WithoutTrailingBreak(consumed);
    WrittenAndHeld(held, line);
    var t := NewBreak(held, line);
    AppendAssoc(kept, Written(held, line), t);
    AppendAssoc(kept, held, line);
    CancelRight(WithoutTrailingBreak(consumed + line), kept + Written(held, line), t);
  }

  lemma StopAtStep(s: string, k: nat, n: nat, b: string)
    requires n > 0 && k < |s|
    ensures var line := Line(s[k..], n);
            && line != "" && k + |line| <= |s|
            && k + StopAt(s[k..], n, b) ==
                 if MatchBoundary(line, b).Some? || CutAfterCR(line, n) then k
                 else k + |line| + StopAt(s[k + |line|..], n, b)
  {
    var line := Line(s[k..], n);
    assert s[k..][|line|..] == s[k + |line|..];
  }

  /** The reader stands before offset `k` of `s`: no block so far made it stop, `body` is
      written and `held` held back. */
  ghost predicate AtBlock(s: string, k: nat, held: Option<string>, body: string, n: nat, b: string) {
    && n > 0 && k <= |s|
    && k + StopAt(s[k..], n, b) == StopAt(s, n, b)
    && held == Held(s[..k])
    && body == WithoutTrailingBreak(s[..k])
  }

  function HeldText(held: Option<string>): string {
    if held.Some? then held.value else ""
  }

  lemma AtFirstBlock(s: string, n: nat, b: string)
    requires n > 0
    ensures AtBlock(s, 0, None, "", n, b)
  {
    assert s[0..] == s;
  }

  /** The stream ends: the held-back break is part of the body. */
  lemma StopAtEnd(s: string, k: nat, held: Option<string>, body: string, n: nat, b: string)
    requires AtBlock(s, k, held, body, n, b) && k == |s|
    ensures ReadPart(s, n, b) == PartRead(body + HeldText(held), "", Returned(true))
  {
    assert s[..k] == s;
  }

  /** A boundary line, or a block cut after a carriage return. */
  lemma StopAtLine(s: string, k: nat, line: string, held: Option<string>, body: string, n: nat, b: string)
    requires AtBlock(s, k, held, body, n, b) && k < |s| && line == Line(s[k..], n)
    requires MatchBoundary(line, b).Some? || CutAfterCR(line, n)
    ensures ReadPart(s, n, b) ==
              PartRead(body, s[k..][|line|..],
                       match MatchBoundary(line, b)
                       case Some(last) => Returned(last)
                       case None => AssertionError)
  {
    hide WithoutTrailingBreak, TrailingBreak, MatchBoundary, CutAfterCR;
    StopAtStep(s, k, n, b);
    assert s[k..][|line|..] == s[k + |line|..];
  }

  /** One turn of the reader's loop that does not stop. */
  lemma PassLine(s: string, k: nat, line: string, held: Option<string>, body: string, n: nat, b: string)
    requires AtBlock(s, k, held, body, n, b) && line == Line(s[k..], n) && line != ""
    requires MatchBoundary(line, b).None? && !CutAfterCR(line, n)
    ensures k + |line| <= |s| && s[k..][|line|..] == s[k + |line|..]
    ensures var t := NewBreak(HeldText(held), line);
            AtBlock(s, k + |line|, if t == "" then None else Some(t),
                    body + Written(HeldText(held), line), n, b)
  {
    hide WithoutTrailingBreak, TrailingBreak, Written, NewBreak, MatchBoundary;
    StopAtStep(s, k, n, b);
    assert s[..k + |line|] == s[..k] + line;
    NextBreak(s[..k], line);
    NextWritten(s[..k], line);
  }

  lemma HeldCR(held: Option<string>)
    ensures HeldText(held) == "\r" <==> held == Some("\r")
  {
  }

  method WriteHeld(file: File?, held: Option<string>, data: string)
    modifies file
    ensures file != null ==> file.data == old(file.data) + (HeldText(held) + data)
  {
    if file != null {
      AppendAssoc(file.data, HeldText(held), data);
      assert file.data + "" == file.data;
      if held.Some? {
        file.Write(held.value);
      }
      file.Write(data);
    }
  }

  /** Writes a block that is no boundary, all but a line break at its end, which may turn out
      to belong to a boundary; fails on a block cut after a carriage return. */
  method TakeBlock(file: File?, held: Option<string>, line: string, n: nat)
    returns (held': Option<string>, ok: bool)
    requires |line| <= n
    modifies file
    ensures ok <==> !CutAfterCR(line, n)
    ensures !ok && file != null ==> file.data == old(file.data)
    ensures var h := HeldText(held);
            ok ==>
              && held' == (if NewBreak(h, line) == "" then None else Some(NewBreak(h, line)))
              && (file != null ==> file.data == old(file.data) + Written(h, line))
  {
    hide HeldText;
    assert HeldText(held) == "\r" <==> held == Some("\r") by { HeldCR(held); }
    held', ok := None, true;
    if EndsCRLF(line) {
      WriteHeld(file, held, line[..|line| - 2]);
      held' := Some(CRLF);
    } else if EndsCR(line) {
      if |line| != n {
        return None, false;
      }
      WriteHeld(file, held, line[..|line| - 1]);
      held' := Some("\r");
    } else if line == "\n" && held == Some("\r") {
      held' := Some(CRLF);
    } else {
      WriteHeld(file, held, line);
    }
  }

  /** The reader meets `ReadPart`, for every block size and every pattern of short reads. */
  method ReadToBoundary(req: Request, b: string, file: File?, n: nat) returns (outcome: Outcome)
    requires req.Valid() && n > 0
    modifies req, req.client, file
    ensures req.Valid()
    ensures var r := ReadPart(old(req.Pending()), n, b);
            && outcome == r.outcome && req.Pending() == r.rest
            && (file != null ==> file.data == old(file.data) + r.body)
  {
    hide AtBlock, ReadPart, MatchBoundary, NewBreak, Written, Line, Request.Pending;
    ghost var s := req.Pending();
    ghost var k, body := 0, "";
    var held: Option<string> := None;
    AtFirstBlock(s, n, b);
    while true
      invariant req.Valid() && 0 <= k <= |s|
      invariant req.Pending() == s[k..]
      invariant AtBlock(s, k, held, body, n, b)
      invariant file != null ==> file.data == old(file.data) + body
      decreases |s| - k
    {
      var line := req.Readline(n);
      if line == "" {
        StopAtEnd(s, k, held, body, n, b);
        if file != null && held.Some? {
          file.Write(held.value);
        }
        return Returned(true);
      }
      var isBoundary := MatchBoundary(line, b);
      if isBoundary.Some? {
        StopAtLine(s, k, line, held, body, n, b);
        return Returned(isBoundary.value);
      }
      ghost var h := held;
      var ok;
      held, ok := TakeBlock(file, held, line, n);
      if !ok {
        StopAtLine(s, k, line, h, body, n, b);
        return AssertionError;
      }
      PassLine(s, k, line, h, body, n, b);
      k, body := k + |line|, body + Written(HeldText(h), line);
    }
  }
}
