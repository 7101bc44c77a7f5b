/** The request object's line reader over the client's body (src/requestobject.c). */
module RequestBody {
  import opened Text

  const HUGE_STRING_LEN: nat := 8192

  /** The connection: `unread` is the part of the body that the client will still send
      before the stream ends, `remaining` the number of bytes the request declared and
      has not delivered. */
  class Client {
    var unread: string
    var remaining: nat

    ghost predicate Valid()
      reads this
    {
      |unread| <= remaining
    }

    constructor (body: string, declared: nat)
      requires |body| <= declared
      ensures Valid() && unread == body && remaining == declared
    {
      unread, remaining := body, declared;
    }

    /** Reads into `buffer` from `at`: any positive number of bytes up to `n`, chosen by the
        network, and 0 only at the end of the stream. */
    method GetClientBlock(buffer: array<char>, at: nat, n: nat) returns (k: nat)
      requires Valid()
      requires 0 < n && at + n <= buffer.Length
      modifies this, buffer
      ensures Valid()
      ensures k <= n && (k == 0 <==> old(unread) == "")
      ensures k <= |old(unread)| && buffer[at..at + k] == old(unread)[..k]
      ensures unread == old(unread)[k..]
      ensures buffer[..at] == old(buffer[..at])
      ensures remaining == old(remaining) - k
    {
      if unread == "" {
        return 0;
      }
      k :| 0 < k <= n && k <= |unread|;
      forall i | 0 <= i < k {
        buffer[at + i] := unread[i];
      }
      remaining := remaining - k;
      unread := unread[k..];
    }
  }

  /** The bound that `readline(len)` puts on a line of `s`; a negative length means all
      that is left. */
  function MaxBytes(len: int, s: string): nat {
    if len < 0 then |s| else len
  }

  function LineOf(s: string, len: int): (line: string)
    ensures line <= s
    ensures line == "" <==> s == "" || len == 0
  {
    Line(s, MaxBytes(len, s))
  }

  /** A bound beyond the end of the data is no bound. */
  lemma LineBeyondEnd(s: string, n: nat)
    requires n >= |s|
    ensures Line(s, n) == Line(s, |s|)
  {
    LineEndUnique(s, n, LineLen(s, |s|));
  }

  /** What `readlines(sizehint)` collects from `s` after `size` bytes, its next line being
      read with `len`: the first line is read without a bound, the others with the hint. */
  function LinesOf(s: string, len: int, sizehint: int, size: nat): (lines: seq<string>)
    decreases |s|
  {
    var line := LineOf(s, len);
    if line == "" then []
    else if sizehint != -1 && size + |line| >= sizehint then [line]
    else [line] + LinesOf(s[|line|..], sizehint, sizehint, size + |line|)
  }

  /** One turn of the `readlines` loop: the lines still to come after this one. */
  lemma ReadlinesTurn(s: string, len: int, sizehint: int, size: nat) returns (tail: seq<string>)
    ensures var line := LineOf(s, len);
            LinesOf(s, len, sizehint, size) == if line == "" then [] else [line] + tail
    ensures var line := LineOf(s, len);
            tail == if sizehint != -1 && size + |line| >= sizehint then []
                    else LinesOf(s[|line|..], sizehint, sizehint, size + |line|)
  {
    hide Line;
    var line := LineOf(s, len);
    tail := if sizehint != -1 && size + |line| >= sizehint then []
            else LinesOf(s[|line|..], sizehint, sizehint, size + |line|);
  }

  /** Where a `readlines` call stands: `lines` collected, `at` still to be served with the
      next line bounded by `len`, towards `goal` on `body`. */
  ghost predicate Collecting(body: string, goal: seq<string>, lines: seq<string>,
                             at: string, len: int, sizehint: int, size: nat) {
    && Concat(lines) + at == body
    && goal == lines + LinesOf(at, len, sizehint, size)
  }

  lemma StartCollecting(body: string, sizehint: int)
    ensures Collecting(body, LinesOf(body, -1, sizehint, 0), [], body, -1, sizehint, 0)
  {
  }

  lemma CollectLine(body: string, goal: seq<string>, lines: seq<string>,
                    at: string, len: int, sizehint: int, size: nat)
    requires Collecting(body, goal, lines, at, len, sizehint, size)
    ensures var line := LineOf(at, len);
            if line == "" then goal == lines && Concat(lines) + at == body
            else if sizehint != -1 && size + |line| >= sizehint then
              goal == lines + [line] && Concat(lines + [line]) + at[|line|..] == body
            else
              Collecting(body, goal, lines + [line], at[|line|..], sizehint, sizehint, size + |line|)
  {
    hide LineOf, LinesOf, Concat;
    var line := LineOf(at, len);
    var tail := ReadlinesTurn(at, len, sizehint, size);
    ConcatSnoc(lines, line);
    assert at == line + at[|line|..];
    AppendAssoc(Concat(lines), line, at[|line|..]);
    AppendAssoc(lines, [line], tail);
    assert lines + [] == lines && (lines + [line]) + [] == lines + [line];
  }

  /** `readlines` hands out a prefix of the body, all of it when no hint is given. */
  lemma {:induction false} ReadlinesIsPrefix(s: string, len: int, sizehint: int, size: nat)
    ensures Concat(LinesOf(s, len, sizehint, size)) <= s
    ensures sizehint == -1 && len == -1 ==> Concat(LinesOf(s, len, sizehint, size)) == s
    decreases |s|
  {
    hide LineOf, LinesOf;
    var line := LineOf(s, len);
    var tail := ReadlinesTurn(s, len, sizehint, size);
    if line != "" {
      var rest := s[|line|..];
      if tail != [] {
        ReadlinesIsPrefix(rest, sizehint, sizehint, size + |line|);
      }
      ReadlinesIsPrefixStep(s, line, tail);
      if sizehint == -1 && len == -1 {
        ReadlinesIsPrefix(rest, -1, -1, size + |line|);
        assert s == line + rest;
      }
    }
  }

  lemma ReadlinesIsPrefixStep(s: string, line: string, tail: seq<string>)
    requires line <= s && Concat(tail) <= s[|line|..]
    ensures Concat([line] + tail) == line + Concat(tail) <= s
  {
    ConcatCons(line, tail);
    assert s == line + s[|line|..];
  }

  /** A hint is met unless the body ends first, and not before the last line returned. */
  lemma {:induction false} ReadlinesMeetsHint(s: string, len: int, sizehint: int, size: nat)
    requires sizehint > size && len != 0
    ensures var lines := LinesOf(s, len, sizehint, size);
            && (size + |Concat(lines)| >= sizehint || Concat(lines) == s)
            && (lines != [] ==> size + |Concat(lines[..|lines| - 1])| < sizehint)
    decreases |s|
  {
    hide LineOf, LinesOf;
    var line := LineOf(s, len);
    var tail := ReadlinesTurn(s, len, sizehint, size);
    if line != "" {
      var rest := s[|line|..];
      assert s == line + rest;
      if size + |line| >= sizehint {
        assert [line][..0] == [];
        ConcatSnoc([], line);
      } else {
        ReadlinesMeetsHint(rest, sizehint, sizehint, size + |line|);
        ConcatCons(line, tail);
        if tail == [] {
          assert [line][..0] == [];
        } else {
          ConcatCons(line, tail[..|tail| - 1]);
          assert ([line] + tail)[..|tail|] == [line] + tail[..|tail| - 1];
        }
      }
    }
  }

  /** A nonempty string whose only newline, if any, is its last byte. */
  predicate IsOneLine(line: string) {
    line != "" && forall i :: 0 <= i < |line| - 1 ==> line[i] != LF
  }

  /** A line goes up to the first newline, but not beyond `len` bytes unless `len` is negative, and it
      is shorter than that without a newline only at the end of the body. */
  lemma LineOfIs(s: string, len: int)
    requires s != "" && len != 0
    ensures var line := LineOf(s, len);
            && line <= s && IsOneLine(line) && (len >= 0 ==> |line| <= len)
            && (line[|line| - 1] == LF || |line| == len || line == s)
  {
  }

  /** With a hint, or without one, what is collected are lines in that sense: the first one without a
      bound, those after it with the hint as their bound. */
  lemma {:induction false} ReadlinesAreBounded(s: string, len: int, sizehint: int, size: nat, i: nat)
    requires len != 0 && i < |LinesOf(s, len, sizehint, size)|
    ensures var lines := LinesOf(s, len, sizehint, size);
            var bound := if i == 0 then len else sizehint;
            && IsOneLine(lines[i]) && (bound >= 0 ==> |lines[i]| <= bound)
            && (lines[i][|lines[i]| - 1] == LF || |lines[i]| == bound || Concat(lines[..i + 1]) == s)
    decreases |s|
  {
    hide LineOf, LinesOf;
    var line := LineOf(s, len);
    var tail := ReadlinesTurn(s, len, sizehint, size);
    var lines := [line] + tail;
    if i == 0 {
      LineOfIs(s, len);
      assert lines[..1] == [line] + [];
      ConcatCons(line, []);
    } else {
      var rest := s[|line|..];
      ZeroHintIsMet(s, len, sizehint, size, tail);
      ReadlinesAreBounded(rest, sizehint, sizehint, size + |line|, i - 1);
      assert lines[..i + 1] == [line] + tail[..i];
      ConcatCons(line, tail[..i]);
      assert s == line + rest;
    }
  }

  lemma ZeroHintIsMet(s: string, len: int, sizehint: int, size: nat, tail: seq<string>)
    requires tail != [] && LineOf(s, len) != "" && LinesOf(s, len, sizehint, size) == [LineOf(s, len)] + tail
    ensures sizehint != 0
  {
    assert ([LineOf(s, len)] + tail)[1..] == tail;
  }

  /** Without a hint the lines are the body's own lines: a newline ends every line but
      possibly the last, and is nowhere else. */
  lemma {:induction false} ReadlinesAreLines(s: string, size: nat, i: nat)
    requires i < |LinesOf(s, -1, -1, size)|
    ensures var lines := LinesOf(s, -1, -1, size);
            IsOneLine(lines[i]) && (i < |lines| - 1 ==> lines[i][|lines[i]| - 1] == LF)
    decreases |s|
  {
    var line := LineOf(s, -1);
    var tail := LinesOf(s[|line|..], -1, -1, size + |line|);
    assert LinesOf(s, -1, -1, size) == [line] + tail;
    if i > 0 {
      ReadlinesAreLines(s[|line|..], size + |line|, i - 1);
    } else {
      assert s[|line|..] == "" ==> tail == [];
    }
  }

  datatype ReadCall = ReadLine(len: int) | ReadLines(sizehint: int)

  /** The lines one call returns from `s`. */
  function Served(s: string, call: ReadCall): (lines: seq<string>)
    ensures Concat(lines) <= s
  {
    match call
    case ReadLine(len) =>
      assert Concat([LineOf(s, len)]) == LineOf(s, len);
      [LineOf(s, len)]
    case ReadLines(hint) =>
      ReadlinesIsPrefix(s, -1, hint, 0);
      LinesOf(s, -1, hint, 0)
  }

  /** What a run of calls returns, one entry per line. */
  function ReadRun(s: string, calls: seq<ReadCall>): seq<string> {
    if calls == [] then []
    else
      var lines := Served(s, calls[0]);
      lines + ReadRun(s[|Concat(lines)|..], calls[1..])
  }

  /** Any mix of `readline` and `readlines` calls reads the body from the front without
      dropping, repeating or reordering a byte. */
  lemma {:induction false} ReadRunIsPrefix(s: string, calls: seq<ReadCall>)
    ensures Concat(ReadRun(s, calls)) <= s
    decreases |calls|
  {
    if calls != [] {
      var lines := Served(s, calls[0]);
      var rest := s[|Concat(lines)|..];
      ReadRunIsPrefix(rest, calls[1..]);
      ConcatAppend(lines, ReadRun(rest, calls[1..]));
      assert s == Concat(lines) + rest;
    }
  }

  /** The request: `rbuff[rbuffPos..rbuffLen]` was received but not yet handed out. */
  class Request {
    const client: Client
    var rbuff: array?<char>
    var rbuffPos: nat
    var rbuffLen: nat

    ghost predicate Valid()
      reads this, client, rbuff
    {
      && client.Valid()
      && rbuffPos <= rbuffLen
      && (rbuffPos < rbuffLen ==> rbuff != null)
      && (rbuff != null ==> rbuffLen <= rbuff.Length)
    }

    /** The bytes received and not handed out. */
    ghost function Leftover(): string
      requires Valid()
      reads this, client, rbuff
    {
      if rbuff == null then "" else rbuff[rbuffPos..rbuffLen]
    }

    /** All the bytes of the body that the handler has not been given yet. */
    ghost function Pending(): string
      requires Valid()
      reads this, client, rbuff
    {
      Leftover() + client.unread
    }

    constructor (client: Client)
      requires client.Valid()
      ensures Valid() && this.client == client && Pending() == client.unread
      ensures rbuff == null
    {
      this.client := client;
      rbuff, rbuffPos, rbuffLen := null, 0, 0;
    }

    /** Copies buffered bytes into `buffer` from `copied` on, up to a newline or until
        `buffer` is full; `done` tells whether it stopped for one of those reasons. */
    method CopyLine(buffer: array<char>, copied: nat) returns (n: nat, done: bool)
      requires Valid() && rbuff != buffer
      requires copied <= buffer.Length
      requires rbuffPos < rbuffLen ==> copied < buffer.Length
      requires (forall i :: 0 <= i < copied ==> buffer[i] != LF)
      modifies this`rbuffPos, buffer
      ensures Valid()
      ensures copied <= n <= buffer.Length && rbuffPos == old(rbuffPos) + n - copied
      ensures buffer[..n] + Leftover() == old(buffer[..copied] + Leftover())
      ensures forall i :: 0 <= i < n - 1 ==> buffer[i] != LF
      ensures done ==> n > copied && (buffer[n - 1] == LF || n == buffer.Length)
      ensures !done ==> rbuffPos == rbuffLen && forall i :: 0 <= i < n ==> buffer[i] != LF
      ensures !done ==> n == copied || n < buffer.Length
    {
      ghost var before, from := buffer[..copied], Leftover();
      n, done := copied, false;
      while rbuffPos < rbuffLen && !done
        invariant Valid() && copied <= n <= buffer.Length
        invariant rbuffPos == old(rbuffPos) + n - copied && n - copied <= |from|
        invariant buffer[..n] == before + from[..n - copied]
        invariant Leftover() == from[n - copied..]
        invariant forall i :: 0 <= i < n - 1 ==> buffer[i] != LF
        invariant done ==> n > copied && (buffer[n - 1] == LF || n == buffer.Length)
        invariant !done ==> forall i :: 0 <= i < n ==> buffer[i] != LF
        invariant !done ==> (n == copied && (rbuffPos < rbuffLen ==> n < buffer.Length)) || n < buffer.Length
        decreases rbuffLen - rbuffPos, !done
      {
        ghost var so := buffer[..n];
        buffer[n] := rbuff[rbuffPos];
        n := n + 1;
        rbuffPos := rbuffPos + 1;
        assert buffer[..n] == so + [from[n - copied - 1]];
        done := rbuff[rbuffPos - 1] == LF || n == buffer.Length;
      }
      assert from == from[..n - copied] + from[n - copied..];
    }

    method FreeIfDone()
      requires Valid()
      modifies this`rbuff
      ensures Valid() && Leftover() == old(Leftover())
      ensures rbuff == old(rbuff) || rbuff == null
    {
      if rbuffPos >= rbuffLen {
        rbuff := null;
      }
    }

    /** Replaces the used-up buffer by a new one with at least `want` bytes in it, or all
        that the client still sends, over as many short reads as that takes. */
    method Refill(want: nat)
      requires Valid() && rbuffPos == rbuffLen
      modifies this, client
      ensures Valid() && rbuff != null && fresh(rbuff)
      ensures Leftover() + client.unread == old(client.unread)
      ensures |Leftover()| >= want || client.unread == ""
    {
      var size := if want > HUGE_STRING_LEN then want else HUGE_STRING_LEN;
      var buffer := new char[size];
      var chunkLen := client.GetClientBlock(buffer, 0, size);
      var bytesRead: nat := chunkLen;
      while chunkLen != 0 && bytesRead < want
        invariant client.Valid() && bytesRead <= size
        invariant buffer[..bytesRead] + client.unread == old(client.unread)
        invariant chunkLen == 0 ==> client.unread == ""
        decreases |client.unread|, chunkLen
      {
        ghost var before := buffer[..bytesRead];
        ghost var unread := client.unread;
        chunkLen := client.GetClientBlock(buffer, bytesRead, size - bytesRead);
        assert buffer[..bytesRead + chunkLen] == before + unread[..chunkLen];
        bytesRead := bytesRead + chunkLen;
      }
      rbuff, rbuffPos, rbuffLen := buffer, 0, bytesRead;
    }

    /** Whatever sizes the network delivers, a call hands out exactly the next line of the
        body, at most `len` bytes of it, and nothing else is lost. */
    method Readline(len: int) returns (line: string)
      requires Valid()
      modifies this, client
      ensures Valid() && (rbuff == old(rbuff) || rbuff == null || fresh(rbuff))
      ensures line == LineOf(old(Pending()), len)
      ensures Pending() == old(Pending())[|line|..]
    {
      if len == 0 {
        return "";
      }
      ghost var body := Pending();
      var max := len;
      if len < 0 {
        max := client.remaining + (rbuffLen - rbuffPos);
        LineBeyondEnd(body, max);
      }
      var buffer := new char[max];
      var copied := FillLine(buffer);
      FreeIfDone();
      line := buffer[..copied];
      LineEndFound(body, line, Pending(), max);
    }

    /** `readlines`: the lines of `LinesOf`, the body advancing by exactly those. */
    method Readlines(sizehint: int) returns (lines: seq<string>)
      requires Valid()
      modifies this, client
      ensures Valid()
      ensures lines == LinesOf(old(Pending()), -1, sizehint, 0)
      ensures Concat(lines) + Pending() == old(Pending())
    {
      hide Collecting;
      ghost var body := Pending();
      ghost var goal := LinesOf(body, -1, sizehint, 0);
      lines := [];
      var size: nat := 0;
      StartCollecting(body, sizehint);
      var line := Readline(-1);
      ghost var at, len := body, -1;
      while |line| > 0
        invariant Valid() && line == LineOf(at, len) && Pending() == at[|line|..]
        invariant Collecting(body, goal, lines, at, len, sizehint, size)
        decreases |at|
      {
        CollectLine(body, goal, lines, at, len, sizehint, size);
        lines := lines + [line];
        size := size + |line|;
        if sizehint != -1 && size >= sizehint {
          return;
        }
        at, len := Pending(), sizehint;
        line := Readline(sizehint);
      }
      CollectLine(body, goal, lines, at, len, sizehint, size);
    }

    /** Fills `buffer` with the next line: what is left in the read buffer first, then, if
        that does not complete the line, bytes from a new one. */
    method FillLine(buffer: array<char>) returns (n: nat)
      requires Valid() && rbuff != buffer
      requires rbuffPos < rbuffLen ==> 0 < buffer.Length
      requires client.unread != "" ==> 0 < buffer.Length
      modifies this, client, buffer
      ensures Valid() && (rbuff == old(rbuff) || rbuff == null || fresh(rbuff))
      ensures rbuff != buffer && n <= buffer.Length
      ensures buffer[..n] + Pending() == old(Pending())
      ensures forall i :: 0 <= i < n - 1 ==> buffer[i] != LF
      ensures n == buffer.Length || (n > 0 && buffer[n - 1] == LF) || Pending() == ""
    {
      ghost var body, left := Pending(), Leftover();
      var copied, done := CopyLine(buffer, 0);
      assert buffer[..copied] + Leftover() == left;
      if done {
        assert buffer[..copied] + Pending() == (buffer[..copied] + Leftover()) + client.unread;
        return copied;
      }
      ghost var first := buffer[..copied];
      assert first + client.unread == body;
      FreeIfDone();
      Refill(buffer.Length - copied);
      n := CopyRest(buffer, copied, body);
    }

    /** The second half of `Readline`: the copy out of a freshly filled buffer. */
    method CopyRest(buffer: array<char>, copied: nat, ghost body: string) returns (n: nat)
      requires Valid() && rbuff != buffer && copied <= buffer.Length
      requires rbuffPos < rbuffLen ==> copied < buffer.Length
      requires buffer[..copied] + Pending() == body && (forall i :: 0 <= i < copied ==> buffer[i] != LF)
      requires |Leftover()| >= buffer.Length - copied || client.unread == ""
      modifies this`rbuffPos, buffer
      ensures Valid() && copied <= n <= buffer.Length
      ensures buffer[..n] + Pending() == body
      ensures forall i :: 0 <= i < n - 1 ==> buffer[i] != LF
      ensures n == buffer.Length || (n > 0 && buffer[n - 1] == LF) || Pending() == ""
    {
      ghost var before, left := buffer[..copied], Leftover();
      var done;
      n, done := CopyLine(buffer, copied);
      AppendAssoc(before, left, client.unread);
      AppendAssoc(buffer[..n], Leftover(), client.unread);
    }
  }

  lemma LineEndFound(body: string, line: string, rest: string, max: nat)
    requires line + rest == body && |line| <= max
    requires forall i :: 0 <= i < |line| - 1 ==> line[i] != LF
    requires |line| == max || (line != "" && line[|line| - 1] == LF) || rest == ""
    requires max > 0 && body != "" ==> line != ""
    ensures line == Line(body, max) && rest == body[|line|..]
  {
    assert forall i :: 0 <= i < |line| ==> body[i] == line[i];
    LineEndUnique(body, max, |line|);
  }
}
