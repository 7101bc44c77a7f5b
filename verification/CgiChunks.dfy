/** When the way a CGI program splits its output into writes does not matter. */
module CgiChunks {
  import opened Bytes
  import opened CgiStdout
  import opened Optional
  import opened Text

  lemma FindPrefix(p: string, s: string, t: string)
    requires p != ""
    ensures Find(p, s) < |s| ==> Find(p, s + t) == Find(p, s)
    ensures Find(p, s) == |s| && Find(p, s + t) < |s + t| ==> Find(p, s + t) + |p| > |s|
  {
    forall k: nat | k + |p| <= |s|
      ensures OccursAt(p, s + t, k) == OccursAt(p, s, k)
    {
      assert (s + t)[k..k + |p|] == s[k..k + |p|];
    }
  }

  lemma OccursChars(s: string, p: nat)
    ensures OccursAt(CRLFCRLF, s, p) ==>
              p + 4 <= |s| && s[p] == CR && s[p + 1] == LF && s[p + 2] == CR && s[p + 3] == LF
    ensures OccursAt(LFLF, s, p) ==> p + 2 <= |s| && s[p] == LF && s[p + 1] == LF
  {
    if OccursAt(CRLFCRLF, s, p) {
      var u := s[p..p + 4];
      assert u[0] == s[p] && u[1] == s[p + 1] && u[2] == s[p + 2] && u[3] == s[p + 3];
    }
    if OccursAt(LFLF, s, p) {
      var u := s[p..p + 2];
      assert u[0] == s[p] && u[1] == s[p + 1];
    }
  }

  /** The two ends of a header block do not overlap. */
  lemma EndsApart(s: string)
    requires Find(CRLFCRLF, s) < |s| && Find(LFLF, s) < |s|
    requires Find(LFLF, s) + 2 < Find(CRLFCRLF, s) + 4
    ensures Find(LFLF, s) + 2 <= Find(CRLFCRLF, s)
  {
    hide Find, OccursAt;
    OccursChars(s, Find(CRLFCRLF, s));
    OccursChars(s, Find(LFLF, s));
  }

  lemma StripLeftStep(c: char, v: string)
    ensures StripLeft([c] + v) == if IsSpace(c) then StripLeft(v) else [c] + v
  {
    assert ([c] + v)[1..] == v;
  }

  lemma {:induction false} StripLeftTrailing(v: string)
    ensures StripLeft(v + "\r") == if StripLeft(v) == "" then "" else StripLeft(v) + "\r"
  {
    hide StripLeft;
    if v == "" {
      StripLeftStep(CR, "");
      assert v + "\r" == [CR] + "";
      assert |StripLeft("")| == 0;
    } else {
      var w := v[1..];
      assert v == [v[0]] + w && v + "\r" == [v[0]] + (w + "\r");
      StripLeftStep(v[0], w);
      StripLeftStep(v[0], w + "\r");
      StripLeftTrailing(w);
    }
  }

  lemma StripTrailing(v: string)
    ensures Strip(v + "\r") == Strip(v)
  {
    hide StripLeft;
    StripLeftTrailing(v);
    var u := StripLeft(v);
    assert (u + "\r")[..|u|] == u;
  }

  lemma EffectIgnoresCR(toInt: string -> Option<int>, line: string)
    ensures EffectOf(toInt, line + "\r") == EffectOf(toInt, line)
  {
    hide Strip, FirstWord;
    var i := IndexOf(line, ':');
    if i < |line| {
      IndexOfConcat(line[..i], ':', line[i + 1..]);
      assert line == line[..i] + [':'] + line[i + 1..];
      IndexOfConcat(line[..i], ':', line[i + 1..] + "\r");
      assert line + "\r" == line[..i] + [':'] + (line[i + 1..] + "\r");
      assert (line + "\r")[i + 1..] == line[i + 1..] + "\r";
      assert (line + "\r")[..i] == line[..i];
      StripTrailing(line[i + 1..]);
    } else {
      assert line[..i] == line;
      assert forall k :: 0 <= k < |line| ==> line[k] in line;
      IndexOfIs(line + "\r", ':', |line| + 1);
    }
  }

  lemma {:induction false} EffectsIgnoreCR(toInt: string -> Option<int>, u: string)
    ensures EffectsOf(toInt, Split(u + "\r", LF)) == EffectsOf(toInt, Split(u, LF))
    decreases |u|
  {
    hide EffectOf;
    var i := IndexOf(u, LF);
    if i < |u| {
      assert u == u[..i] + [LF] + u[i + 1..];
      SplitHead(u[..i], LF, u[i + 1..]);
      assert u + "\r" == u[..i] + [LF] + (u[i + 1..] + "\r");
      SplitHead(u[..i], LF, u[i + 1..] + "\r");
      EffectsIgnoreCR(toInt, u[i + 1..]);
      hide Split;
      EffectsCons(toInt, u[..i], Split(u[i + 1..], LF));
      EffectsCons(toInt, u[..i], Split(u[i + 1..] + "\r", LF));
    } else {
      assert u[..i] == u;
      SplitWhole(u, LF);
      SplitWhole(u + "\r", LF);
      EffectIgnoresCR(toInt, u);
      hide Split;
      EffectsCons(toInt, u, []);
      EffectsCons(toInt, u + "\r", []);
      assert [u] + [] == [u] && [u + "\r"] + [] == [u + "\r"];
    }
  }

  lemma EffectsCons(toInt: string -> Option<int>, line: string, lines: seq<string>)
    ensures EffectsOf(toInt, [line] + lines) ==
            match EffectOf(toInt, line)
            case None => ([], false)
            case Some(e) => ([e] + EffectsOf(toInt, lines).0, EffectsOf(toInt, lines).1)
  {
    hide EffectOf;
    assert ([line] + lines)[1..] == lines;
  }

  /** An empty line raises an exception. */
  lemma {:induction false} EmptyLineRaises(toInt: string -> Option<int>, before: seq<string>, after: seq<string>)
    ensures EffectsOf(toInt, before + ([""] + after)) == (EffectsOf(toInt, before).0, false)
  {
    if before == [] {
      assert before + ([""] + after) == [""] + after;
      EffectsCons(toInt, "", after);
      assert EffectOf(toInt, "") == None;
    } else {
      hide EffectOf;
      assert before == [before[0]] + before[1..];
      assert before + ([""] + after) == [before[0]] + (before[1..] + ([""] + after));
      EffectsCons(toInt, before[0], before[1..]);
      EffectsCons(toInt, before[0], before[1..] + ([""] + after));
      EmptyLineRaises(toInt, before[1..], after);
    }
  }

  lemma {:induction false} SplitConcat(u: string, c: char, t: string)
    ensures Split(u + [c] + t, c) == Split(u, c) + Split(t, c)
    decreases |u|
  {
    hide Split;
    var i := IndexOf(u, c);
    if i < |u| {
      var a, b := u[..i], u[i + 1..];
      assert u == a + [c] + b;
      assert u + [c] + t == a + [c] + (b + [c] + t);
      SplitHead(a, c, b);
      SplitHead(a, c, b + [c] + t);
      SplitConcat(b, c, t);
      assert [a] + (Split(b, c) + Split(t, c)) == ([a] + Split(b, c)) + Split(t, c);
    } else {
      assert u[..i] == u;
      SplitWhole(u, c);
      SplitHead(u, c, t);
    }
  }

  /** A newline is where line ends can be rewritten apart. */
  lemma {:induction false} UnixConcat(a: string, b: string)
    requires a != "" && a[|a| - 1] == LF
    ensures Unix(a + b) == Unix(a) + Unix(b)
    decreases |a|
  {
    hide Unix;
    assert Unix("") == "" by { UnixNothing(); }
    if "\r\n" <= a {
      var c := a[2..];
      assert a == "\r\n" + c && a + b == "\r\n" + (c + b);
      UnixBreak(c);
      UnixBreak(c + b);
      if c == "" {
        assert c + b == b;
      } else {
        UnixConcat(c, b);
      }
    } else {
      var c := a[1..];
      assert a == [a[0]] + c && a + b == [a[0]] + (c + b);
      UnixChar(a[0], c);
      UnixChar(a[0], c + b);
      if c == "" {
        assert c + b == b;
      } else {
        UnixConcat(c, b);
      }
    }
  }

  lemma UnixNothing()
    ensures Unix("") == ""
  {
  }

  /** A newline after `a` also removes a carriage return at its end. */
  lemma {:induction false} UnixNewline(a: string) returns (u: string)
    ensures Unix(a + "\n") == u + "\n"
    ensures Unix(a) == u || Unix(a) == u + "\r"
    decreases |a|
  {
    var s := a + "\n";
    if a == "" {
      u := "";
      assert s[1..] == "";
    } else if "\r\n" <= a {
      assert s[2..] == a[2..] + "\n";
      var v := UnixNewline(a[2..]);
      u := "\n" + v;
      assert "\n" + (v + "\n") == u + "\n" && "\n" + (v + "\r") == u + "\r";
    } else if a == "\r" {
      u := "";
      assert s[2..] == "" && a[1..] == "";
    } else {
      assert s[0] == a[0] && (|a| > 1 ==> s[1] == a[1]);
      assert s[1..] == a[1..] + "\n";
      var v := UnixNewline(a[1..]);
      u := [a[0]] + v;
      assert [a[0]] + (v + "\n") == u + "\n" && [a[0]] + (v + "\r") == u + "\r";
    }
  }

  /** A header block with an empty line has the effects of what comes before that, and then raises
      an exception. */
  lemma BlockWithEmptyLine(toInt: string -> Option<int>, a: string, c: string)
    ensures EffectsOf(toInt, Lines(a + "\n\n" + c)) == (EffectsOf(toInt, Lines(a)).0, false)
  {
    hide Unix, EffectsOf, Split;
    var u := UnixNewline(a);
    var b := a + "\n";
    assert a + "\n\n" + c == b + ("\n" + c);
    UnixConcat(b, "\n" + c);
    UnixConcat("\n", c);
    assert Unix("\n") == "\n" by { UnixOne(); }
    assert Unix(a + "\n\n" + c) == u + [LF] + ("" + [LF] + Unix(c));
    SplitConcat(u, LF, "" + [LF] + Unix(c));
    SplitHead("", LF, Unix(c));
    EmptyLineRaises(toInt, Split(u, LF), Split(Unix(c), LF));
    EffectsIgnoreCR(toInt, u);
  }

  lemma UnixOne()
    ensures Unix("\n") == "\n"
  {
    var s := "\n";
    assert s[1..] == "";
  }

  /** What has come of a whole output. */
  function Final(toInt: string -> Option<int>, s: string): Outcome {
    match SplitHeaders(s)
    case None => Done([], "", |s|)
    case Some((block, rest)) =>
      var e := EffectsOf(toInt, Lines(block));
      if e.1 then Done(e.0, rest, |s|) else Raised(e.0)
  }

  /** The object before the headers are over. */
  function Collecting(h: string): State {
    State(|h|, false, h, [], "")
  }

  lemma {:induction false} RunSent(toInt: string -> Option<int>, st: State, chunks: seq<string>)
    requires st.headersSent
    ensures Run(toInt, st, chunks) == Done(st.effects, st.body + Concat(chunks), st.pos + |Concat(chunks)|)
    decreases |chunks|
  {
    if chunks == [] {
      assert st.body + "" == st.body;
    } else {
      var st' := Written(toInt, st, chunks[0]).0;
      assert st.body + chunks[0] + Concat(chunks[1..]) == st.body + Concat(chunks);
      assert chunks[0] == "" ==> Concat(chunks) == Concat(chunks[1..]);
      RunSent(toInt, st', chunks[1..]);
    }
  }

  /** The headers are over with the chunk `c`. */
  lemma RunOver(toInt: string -> Option<int>, h: string, c: string, chunks: seq<string>)
    requires c != "" && SplitHeaders(h + c).Some?
    ensures var (block, rest) := SplitHeaders(h + c).value;
            var e := EffectsOf(toInt, Lines(block));
            Run(toInt, Collecting(h), [c] + chunks) ==
            if e.1 then Done(e.0, rest + Concat(chunks), |h + c| + |Concat(chunks)|) else Raised(e.0)
  {
    hide SplitHeaders, EffectsOf, Lines;
    assert ([c] + chunks)[1..] == chunks;
    var (st', raised) := Written(toInt, Collecting(h), c);
    if !raised {
      RunSent(toInt, st', chunks);
    }
  }

  lemma SliceLonger(h: string, t: string, k: nat)
    requires k <= |h|
    ensures (h + t)[..k] == h[..k] && (h + t)[k..] == h[k..] + t
  {
  }

  /** Where headers that are over in `h` end when more follows. */
  lemma SplitLonger(h: string, t: string)
    requires SplitHeaders(h).Some?
    requires Find(CRLFCRLF, h) < |h| || Find(CRLFCRLF, h + t) == |h + t|
    ensures SplitHeaders(h + t) == Some((SplitHeaders(h).value.0, SplitHeaders(h).value.1 + t))
  {
    FindPrefix(CRLFCRLF, h, t);
    FindPrefix(LFLF, h, t);
    hide Find;
    var p, q := Find(CRLFCRLF, h), Find(LFLF, h);
    if p < |h| {
      SliceLonger(h, t, p);
      SliceLonger(h, t, p + 4);
    } else {
      SliceLonger(h, t, q);
      SliceLonger(h, t, q + 2);
    }
  }

  /** The header block of the whole, when a shorter one ends before it. */
  lemma EarlyBlock(h: string, t: string)
    requires Find(CRLFCRLF, h) == |h| && Find(LFLF, h) < |h| && Find(CRLFCRLF, h + t) < |h + t|
    ensures Find(LFLF, h + t) == Find(LFLF, h) < Find(CRLFCRLF, h + t)
    ensures Find(LFLF, h) + 2 <= Find(CRLFCRLF, h + t)
    ensures (h + t)[..Find(CRLFCRLF, h + t)] ==
            h[..Find(LFLF, h)] + "\n\n" + (h + t)[Find(LFLF, h) + 2..Find(CRLFCRLF, h + t)]
  {
    FindPrefix(CRLFCRLF, h, t);
    FindPrefix(LFLF, h, t);
    EndsApart(h + t);
    hide Find;
    var s := h + t;
    var p, q := Find(CRLFCRLF, s), Find(LFLF, h);
    SliceLonger(h, t, q);
    CutAt(s, q, p);
  }

  lemma CutAt(s: string, q: nat, p: nat)
    requires OccursAt(LFLF, s, q) && q + 2 <= p <= |s|
    ensures s[..p] == s[..q] + "\n\n" + s[q + 2..p]
  {
    assert s[..p] == s[..q] + s[q..q + 2] + s[q + 2..p];
  }

  /** Headers that are over in `h` only as long as nothing follows. */
  lemma SplitEarly(toInt: string -> Option<int>, h: string, t: string)
    requires SplitHeaders(h).Some?
    requires Find(CRLFCRLF, h) == |h| && Find(CRLFCRLF, h + t) < |h + t|
    ensures var e := EffectsOf(toInt, Lines(SplitHeaders(h).value.0));
            && EndsEarly(toInt, h + t) == e.1
            && Final(toInt, h + t) == Raised(e.0)
  {
    hide Find, EffectsOf, Lines;
    EarlyBlock(h, t);
    SliceLonger(h, t, Find(LFLF, h));
    BlockWithEmptyLine(toInt, h[..Find(LFLF, h)], (h + t)[Find(LFLF, h) + 2..Find(CRLFCRLF, h + t)]);
  }

  lemma {:induction false} RunCollecting(toInt: string -> Option<int>, h: string, chunks: seq<string>)
    requires SplitHeaders(h).None? && !EndsEarly(toInt, h + Concat(chunks))
    ensures Run(toInt, Collecting(h), chunks) == Final(toInt, h + Concat(chunks))
    decreases |chunks|
  {
    hide SplitHeaders, EndsEarly, EffectsOf, Lines, Find;
    if chunks == [] {
      assert h + "" == h;
    } else {
      var c, t := chunks[0], Concat(chunks[1..]);
      assert h + Concat(chunks) == (h + c) + t;
      if c == "" {
        assert h + c == h;
        RunCollecting(toInt, h, chunks[1..]);
      } else if SplitHeaders(h + c).None? {
        assert Written(toInt, Collecting(h), c) == (Collecting(h + c), false);
        RunCollecting(toInt, h + c, chunks[1..]);
      } else {
        RunOver(toInt, h, c, chunks[1..]);
        assert [c] + chunks[1..] == chunks;
        if Find(CRLFCRLF, h + c) < |h + c| || Find(CRLFCRLF, h + c + t) == |h + c + t| {
          SplitLonger(h + c, t);
        } else {
          assert Find(CRLFCRLF, h + c) == |h + c| && Find(CRLFCRLF, h + c + t) < |h + c + t|;
          SplitEarly(toInt, h + c, t);
        }
      }
    }
  }

  lemma NothingWritten()
    ensures SplitHeaders("").None? && FRESH == Collecting("")
  {
  }

  /** One write of the whole output. */
  lemma OneWrite(toInt: string -> Option<int>, s: string)
    ensures Run(toInt, FRESH, [s]) == Final(toInt, s)
  {
    NothingWritten();
    assert "" + s == s;
    assert [s][1..] == [];
    hide SplitHeaders, EffectsOf, Lines;
    if s != "" && SplitHeaders(s).Some? {
      RunOver(toInt, "", s, []);
      assert [s] + [] == [s];
      var rest := SplitHeaders(s).value.1;
      assert rest + "" == rest;
    }
  }

  /** A program's output has the same outcome however it is split into writes, if and only if it
      has no CRLFCRLF after an empty line that ends well-formed headers. */
  lemma ChunksDoNotMatterIff(toInt: string -> Option<int>, s: string)
    ensures (forall chunks :: Concat(chunks) == s ==>
               Run(toInt, FRESH, chunks) == Run(toInt, FRESH, [s])) <==> !EndsEarly(toInt, s)
  {
    hide SplitHeaders, EndsEarly, Final, Run;
    OneWrite(toInt, s);
    NothingWritten();
    if EndsEarly(toInt, s) {
      var chunks := TwoWrites(toInt, s);
    } else {
      forall chunks: seq<string> | Concat(chunks) == s
        ensures Run(toInt, FRESH, chunks) == Run(toInt, FRESH, [s])
      {
        assert "" + s == s;
        RunCollecting(toInt, "", chunks);
      }
    }
  }

  /** The shortest beginning of `s` in which the headers are over early. */
  lemma EarlyEnd(s: string)
    requires Find(LFLF, s) < Find(CRLFCRLF, s) < |s|
    ensures var q := Find(LFLF, s); var h := s[..q + 2];
            q + 2 <= |s| && Find(LFLF, h) == q < |h| && Find(CRLFCRLF, h) == |h|
  {
    hide Find;
    var q := Find(LFLF, s);
    OccursChars(s, q);
    var h, t := s[..q + 2], s[q + 2..];
    assert h + t == s;
    assert OccursAt(LFLF, h, q) by { assert h[q..q + 2] == s[q..q + 2]; }
    FindPrefix(LFLF, h, t);
    FindPrefix(CRLFCRLF, h, t);
  }

  /** Two writes whose outcome is not that of one. */
  lemma TwoWrites(toInt: string -> Option<int>, s: string) returns (chunks: seq<string>)
    requires EndsEarly(toInt, s)
    ensures Concat(chunks) == s && Run(toInt, FRESH, chunks).Done? && Run(toInt, FRESH, [s]).Raised?
  {
    hide Find, EffectsOf, Lines, Final, Run;
    EarlyEnd(s);
    var q := Find(LFLF, s);
    var h, t := s[..q + 2], s[q + 2..];
    chunks := [h] + [t];
    assert h + t == s && h[..q] == s[..q];
    ConcatCons(h, [t]);
    assert Concat([t]) == t + "";
    NothingWritten();
    OneWrite(toInt, s);
    assert "" + h == h;
    RunOver(toInt, "", h, [t]);
    SplitEarly(toInt, h, t);
  }

  /** After an exception, every further write does the header lines before the malformed one again, and
      raises an exception again. */
  lemma RaisesAgain(toInt: string -> Option<int>, st: State, s: string, t: string)
    requires Written(toInt, st, s).1 && t != ""
    ensures var (once, (twice, raised)) := (Written(toInt, st, s).0, Written(toInt, Written(toInt, st, s).0, t));
            && st.effects <= once.effects && raised
            && twice.effects == once.effects + once.effects[|st.effects|..]
            && twice.body == st.body && !twice.headersSent
  {
    hide Find, EffectsOf, Lines, SplitHeaders, EndsEarly;
    var h := st.headers + s;
    var e := EffectsOf(toInt, Lines(SplitHeaders(h).value.0));
    if Find(CRLFCRLF, h) < |h| || Find(CRLFCRLF, h + t) == |h + t| {
      SplitLonger(h, t);
    } else {
      SplitEarly(toInt, h, t);
    }
    assert EffectsOf(toInt, Lines(SplitHeaders(h + t).value.0)) == e;
    assert (st.effects + e.0)[|st.effects|..] == e.0;
  }
}
