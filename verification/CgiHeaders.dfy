/** What a CGI program's headers do, and what its body is, however it is written. */
module CgiHeaders {
  import opened Bytes
  import opened CgiChunks
  import opened CgiStdout
  import opened Optional
  import opened Text

  /** A line of the header block, without its newline: a header with blanks before and after its value,
      or a line without a colon. */
  datatype Header = Header(name: string, left: string, value: string, right: string) | NoHeader(text: string)

  function TextOf(h: Header): string {
    match h
    case Header(name, left, value, right) => name + [':'] + (left + value + right)
    case NoHeader(text) => text
  }

  predicate IsHeader(h: Header) {
    match h
    case Header(name, left, value, right) =>
      ':' !in name && IsBlanks(left) && IsTrimmed(value) && IsBlanks(right)
      && LF !in name && LF !in left && LF !in value && LF !in right
    case NoHeader(text) => text != "" && text != "\r" && ':' !in text && LF !in text
  }

  /** The value begins with this word. */
  predicate StartsWith(value: string, word: string) {
    && word != "" && word <= value && (forall c :: c in word ==> !IsSpace(c))
    && (|word| < |value| ==> IsSpace(value[|word|]))
  }

  /** The header sets the status to the number that its value begins with, or the content type to its
      value, or adds a header of its name. */
  ghost predicate Does(toInt: string -> Option<int>, h: Header, e: Effect) {
    && h.Header?
    && if Lower(h.name) == "status" then
         e.SetStatus? && exists word :: StartsWith(h.value, word) && toInt(word) == Some(e.code)
       else if Lower(h.name) == "content-type" then e == SetContentType(h.name, h.value)
       else e == AddHeader(h.name, h.value)
  }

  /** There is no colon, or a status that does not begin with a number. */
  ghost predicate Fails(toInt: string -> Option<int>, h: Header) {
    h.NoHeader? || (Lower(h.name) == "status" && forall word :: StartsWith(h.value, word) ==> toInt(word) == None)
  }

  /** The first headers do `es`; the next one fails, if there is one. */
  ghost predicate DoInTurn(toInt: string -> Option<int>, hs: seq<Header>, es: seq<Effect>) {
    && |es| <= |hs|
    && (forall i :: 0 <= i < |es| ==> Does(toInt, hs[i], es[i]))
    && (|es| < |hs| ==> Fails(toInt, hs[|es|]))
  }

  lemma {:induction false} FirstWordIs(v: string, word: string)
    requires StartsWith(v, word)
    ensures FirstWord(v) == word
    decreases |v|
  {
    assert v[0] == word[0] && word[0] in word;
    if |word| == 1 {
      assert word == [word[0]];
      assert |v| > 1 ==> v[1..][0] == v[1];
    } else {
      assert forall c :: c in word[1..] ==> c in word;
      assert v[..|word|] == word;
      assert v[1..][..|word| - 1] == word[1..];
      assert |word| < |v| ==> v[1..][|word[1..]|] == v[|word|];
      FirstWordIs(v[1..], word[1..]);
    }
  }

  lemma {:induction false} FirstWordStarts(v: string)
    requires v != "" && !IsSpace(v[0])
    ensures StartsWith(v, FirstWord(v))
    decreases |v|
  {
    var w := FirstWord(v[1..]);
    if v[1..] == "" || IsSpace(v[1]) {
      assert w == "";
    } else {
      FirstWordStarts(v[1..]);
      assert v[1..][..|w|] == w;
    }
    assert FirstWord(v) == [v[0]] + w == v[..1 + |w|];
  }

  /** What the object does with one line. */
  lemma EffectIs(toInt: string -> Option<int>, h: Header, e: Effect)
    requires IsHeader(h)
    ensures Does(toInt, h, e) ==> EffectOf(toInt, TextOf(h)) == Some(e)
    ensures Fails(toInt, h) ==> EffectOf(toInt, TextOf(h)) == None
  {
    hide Strip, Lower, FirstWord;
    match h
    case NoHeader(text) =>
      assert text == text[..|text|];
      IndexOfIs(text, ':', |text|);
    case Header(name, left, value, right) =>
      var rest := left + value + right;
      IndexOfConcat(name, ':', rest);
      assert TextOf(h)[..|name|] == name && TextOf(h)[|name| + 1..] == rest;
      StripTrimmed(left, value, right);
      if Lower(name) == "status" {
        if value != "" {
          FirstWordStarts(value);
        }
        if Does(toInt, h, e) {
          var word :| StartsWith(value, word) && toInt(word) == Some(e.code);
          FirstWordIs(value, word);
        }
      }
  }

  /** Lines, each followed by a newline. */
  function Block(hs: seq<Header>): string {
    if hs == [] then "" else TextOf(hs[0]) + "\n" + Block(hs[1..])
  }

  predicate IsLineStart(t: string, j: nat)
    requires j <= |t|
  {
    j == 0 || t[j - 1] == LF
  }

  /** There is a line break at `j`. */
  predicate IsBreak(t: string, j: nat)
    requires j < |t|
  {
    t[j] == LF || (t[j] == CR && j + 1 < |t| && t[j + 1] == LF)
  }

  /** No line of `t` is empty, or holds only a carriage return. */
  predicate NoEmptyLine(t: string) {
    forall j :: 0 <= j < |t| && IsLineStart(t, j) ==> !IsBreak(t, j)
  }

  lemma FirstStart(l: string, s: string)
    requires l != "" && l != "\r" && LF !in l && l + "\n" <= s
    ensures !IsBreak(s, 0)
  {
    assert s[0] == l[0] && l[0] in l;
    if |l| == 1 {
      assert l == [l[0]];
    } else {
      assert s[1] == l[1] && l[1] in l;
    }
  }

  lemma LaterStart(l: string, t: string, j: nat)
    requires LF !in l
    requires 0 < j < |l + "\n" + t| && IsLineStart(l + "\n" + t, j)
    ensures |l| < j && IsLineStart(t, j - |l| - 1)
    ensures IsBreak(l + "\n" + t, j) <==> IsBreak(t, j - |l| - 1)
  {
    var s := l + "\n" + t;
    assert forall k :: 0 <= k < |l| ==> s[k] == l[k] && l[k] in l;
    assert j > |l|;
    var i := j - |l| - 1;
    assert s[j] == t[i] && (i > 0 ==> s[j - 1] == t[i - 1]) && (i + 1 < |t| ==> s[j + 1] == t[i + 1]);
  }

  lemma LineNext(l: string, t: string)
    requires l != "" && l != "\r" && LF !in l && NoEmptyLine(t)
    ensures NoEmptyLine(l + "\n" + t)
  {
    var s := l + "\n" + t;
    hide IsBreak, IsLineStart;
    forall j | 0 <= j < |s| && IsLineStart(s, j)
      ensures !IsBreak(s, j)
    {
      if j == 0 {
        FirstStart(l, s);
      } else {
        LaterStart(l, t, j);
      }
    }
  }

  lemma TextIsLine(h: Header)
    requires IsHeader(h)
    ensures TextOf(h) != "" && TextOf(h) != "\r" && LF !in TextOf(h)
  {
    if h.Header? {
      assert TextOf(h)[|h.name|] == ':';
    }
  }

  lemma {:induction false} BlockHasNoEmptyLine(hs: seq<Header>)
    requires forall i :: 0 <= i < |hs| ==> IsHeader(hs[i])
    ensures NoEmptyLine(Block(hs))
    ensures hs != [] ==> Block(hs) != "" && Block(hs)[|Block(hs)| - 1] == LF
  {
    hide NoEmptyLine, IsHeader, TextOf;
    if hs == [] {
      NothingEmpty();
    } else {
      BlockHasNoEmptyLine(hs[1..]);
      TextIsLine(hs[0]);
      LineNext(TextOf(hs[0]), Block(hs[1..]));
    }
  }

  lemma NothingEmpty()
    ensures NoEmptyLine("")
  {
  }

  /** The block ends with a newline, after a carriage return if `end` has one; what follows is the empty
      line `end` and the body. */
  ghost predicate EndsBlock(block: string, end: string, body: string) {
    || (end == "\r\n" && |block| > 1 && block[|block| - 2] == CR)
    || (end == "\n" && !Occurs(CRLFCRLF, block + end + body))
  }

  lemma FindIs(p: string, s: string, i: nat)
    requires p != "" && i < |s| && OccursAt(p, s, i) && forall k :: 0 <= k < i ==> !OccursAt(p, s, k)
    ensures Find(p, s) == i
  {
  }

  lemma NotFound(p: string, s: string)
    requires p != "" && !Occurs(p, s)
    ensures Find(p, s) == |s|
  {
  }

  /** A block has no end of headers in it, nor together with a carriage return after it. */
  lemma NoEndInside(block: string, k: nat)
    requires NoEmptyLine(block) && k + 1 < |block|
    ensures !(block[k] == LF && block[k + 1] == LF)
    ensures k + 2 < |block| ==> !(block[k] == LF && block[k + 1] == CR && block[k + 2] == LF)
  {
    assert IsLineStart(block, k + 1) <==> block[k] == LF;
    assert IsLineStart(block, k + 1) ==> !IsBreak(block, k + 1);
  }

  lemma ShortEnd(block: string, body: string)
    requires NoEmptyLine(block) && block != "" && block[|block| - 1] == LF
    ensures Find(LFLF, block + "\n" + body) == |block| - 1
  {
    hide Find, OccursAt, NoEmptyLine;
    var s := block + "\n" + body;
    var i := |block| - 1;
    assert OccursAt(LFLF, s, i) by { PairOccurs(s, i); }
    forall k | 0 <= k < i ensures !OccursAt(LFLF, s, k) {
      OccursChars(s, k);
      NoEndInside(block, k);
      assert s[k] == block[k] && s[k + 1] == block[k + 1];
    }
    FindIs(LFLF, s, i);
  }

  lemma PairOccurs(s: string, i: nat)
    requires i + 1 < |s| && s[i] == LF && s[i + 1] == LF
    ensures OccursAt(LFLF, s, i)
  {
    assert s[i..i + 2] == [s[i], s[i + 1]] == LFLF;
  }

  lemma QuadOccurs(s: string, i: nat)
    requires i + 3 < |s| && s[i] == CR && s[i + 1] == LF && s[i + 2] == CR && s[i + 3] == LF
    ensures OccursAt(CRLFCRLF, s, i)
  {
    assert s[i..i + 4] == [s[i], s[i + 1], s[i + 2], s[i + 3]] == CRLFCRLF;
  }

  lemma LongEnd(block: string, body: string)
    requires NoEmptyLine(block) && |block| > 1 && block[|block| - 1] == LF && block[|block| - 2] == CR
    ensures var s := block + "\r\n" + body;
            Find(CRLFCRLF, s) == |block| - 2 && Find(LFLF, s) >= |block| - 1
  {
    hide Find, OccursAt, NoEmptyLine;
    var s := block + "\r\n" + body;
    var i := |block| - 2;
    assert OccursAt(CRLFCRLF, s, i) by { QuadOccurs(s, i); }
    forall k | 0 <= k < i ensures !OccursAt(CRLFCRLF, s, k) {
      OccursChars(s, k);
      NoEndInside(block, k + 1);
      assert s[k + 1] == block[k + 1] && s[k + 2] == block[k + 2];
      assert k + 3 < |block| ==> s[k + 3] == block[k + 3];
    }
    FindIs(CRLFCRLF, s, i);
    LateLfLf(block, s);
  }

  lemma LateLfLf(block: string, s: string)
    requires NoEmptyLine(block) && block <= s && block != ""
    ensures Find(LFLF, s) >= |block| - 1
  {
    hide Find, OccursAt, NoEmptyLine;
    var q := Find(LFLF, s);
    OccursChars(s, q);
    if q + 1 < |block| {
      NoEndInside(block, q);
    }
  }

  lemma {:induction false} NoBreaks(l: string)
    requires LF !in l
    ensures Unix(l) == l
    decreases |l|
  {
    if l != "" {
      assert |l| > 1 ==> l[1] in l;
      NoBreaks(l[1..]);
    }
  }

  /** A line, with a carriage return at its end or not, has the same effect with `rest` after it. */
  lemma LineThen(toInt: string -> Option<int>, l: string, rest: string)
    requires LF !in l
    ensures EffectsOf(toInt, Lines(l + "\n" + rest)) == EffectsOf(toInt, [l] + Lines(rest))
  {
    hide Unix, EffectOf, EffectsOf, Split;
    NoBreaks(l);
    var u := UnixNewline(l);
    UnixConcat(l + "\n", rest);
    assert Unix(l + "\n" + rest) == u + [LF] + Unix(rest);
    assert LF !in u;
    SplitHead(u, LF, Unix(rest));
    EffectIgnoresCR(toInt, u);
    EffectsCons(toInt, u, Lines(rest));
    EffectsCons(toInt, l, Lines(rest));
  }

  lemma LastLine(l: string)
    requires LF !in l
    ensures Lines(l) == [l]
  {
    hide Unix, Split;
    NoBreaks(l);
    SplitWhole(l, LF);
  }

  function TextsOf(hs: seq<Header>): seq<string> {
    if hs == [] then [] else [TextOf(hs[0])] + TextsOf(hs[1..])
  }

  /** A block without its last line break has the effects of its lines. */
  lemma {:induction false} BlockIsLines(toInt: string -> Option<int>, hs: seq<Header>, cut: nat)
    requires hs != [] && forall i :: 0 <= i < |hs| ==> IsHeader(hs[i])
    requires cut == 1 || (cut == 2 && |Block(hs)| > 1 && Block(hs)[|Block(hs)| - 2] == CR)
    ensures cut <= |Block(hs)|
    ensures EffectsOf(toInt, Lines(Block(hs)[..|Block(hs)| - cut])) == EffectsOf(toInt, TextsOf(hs))
  {
    hide EffectsOf, EffectOf, Lines, TextOf, IsHeader, Unix, Split;
    var (l, t) := (TextOf(hs[0]), Block(hs[1..]));
    TextIsLine(hs[0]);
    BlockHasNoEmptyLine(hs);
    BlockHasNoEmptyLine(hs[1..]);
    if t == "" {
      assert hs[1..] == [] && Block(hs) == l + "\n";
      var u := Block(hs)[..|Block(hs)| - cut];
      assert l == if cut == 1 then u else u + "\r";
      LastLine(u);
      EffectIgnoresCR(toInt, u);
      EffectsCons(toInt, u, []);
      EffectsCons(toInt, l, []);
      assert [u] + [] == [u] && TextsOf(hs) == [l] + [];
    } else {
      assert hs[1..] != [];
      NotEmptyNext(l, t);
      BlockIsLines(toInt, hs[1..], cut);
      var rest := t[..|t| - cut];
      assert Block(hs)[..|Block(hs)| - cut] == l + "\n" + rest;
      LineThen(toInt, l, rest);
      EffectsCons(toInt, l, Lines(rest));
      EffectsCons(toInt, l, TextsOf(hs[1..]));
    }
  }

  lemma NotEmptyNext(l: string, t: string)
    requires NoEmptyLine(t) && t != "" && t[|t| - 1] == LF
    ensures |t| > 1 && (l + "\n" + t)[|l + "\n" + t| - 2] == t[|t| - 2]
  {
    assert IsLineStart(t, 0) && !IsBreak(t, 0);
  }

  lemma {:induction false} EffectsInTurn(toInt: string -> Option<int>, hs: seq<Header>, es: seq<Effect>)
    requires forall i :: 0 <= i < |hs| ==> IsHeader(hs[i])
    requires DoInTurn(toInt, hs, es)
    ensures EffectsOf(toInt, TextsOf(hs)) == (es, |es| == |hs|)
    decreases |hs|
  {
    hide EffectOf, Does, Fails, IsHeader, TextOf;
    if hs != [] {
      EffectsCons(toInt, TextOf(hs[0]), TextsOf(hs[1..]));
      if es == [] {
        EffectIs(toInt, hs[0], SetStatus(0));
      } else {
        EffectIs(toInt, hs[0], es[0]);
        EffectsInTurn(toInt, hs[1..], es[1..]);
        assert es == [es[0]] + es[1..];
      }
    }
  }

  lemma SplitAt(toInt: string -> Option<int>, s: string)
    ensures var (p, q) := (Find(CRLFCRLF, s), Find(LFLF, s));
            && (p < |s| ==> SplitHeaders(s) == Some((s[..p], s[p + 4..])))
            && (q < |s| == p ==> SplitHeaders(s) == Some((s[..q], s[q + 2..])))
            && (p == |s| || p <= q ==> !EndsEarly(toInt, s))
  {
    hide EffectsOf, Lines, Find;
  }

  lemma ShortSplit(toInt: string -> Option<int>, hs: seq<Header>, body: string)
    requires hs != [] && (forall i :: 0 <= i < |hs| ==> IsHeader(hs[i])) && EndsBlock(Block(hs), "\n", body)
    ensures var s := Block(hs) + "\n" + body;
            && SplitHeaders(s).Some? && SplitHeaders(s).value.1 == body && !EndsEarly(toInt, s)
            && EffectsOf(toInt, Lines(SplitHeaders(s).value.0)) == EffectsOf(toInt, TextsOf(hs))
  {
    hide Find, EffectsOf, Lines, IsHeader, Block, NoEmptyLine, TextsOf, Occurs, SplitHeaders, EndsEarly;
    var block := Block(hs);
    var s := block + "\n" + body;
    SplitAt(toInt, s);
    BlockHasNoEmptyLine(hs);
    NotFound(CRLFCRLF, s);
    ShortEnd(block, body);
    BlockIsLines(toInt, hs, 1);
    assert s[..|block| - 1] == block[..|block| - 1] && s[|block| + 1..] == body;
  }

  lemma LongSplit(toInt: string -> Option<int>, hs: seq<Header>, end: string, body: string)
    requires hs != [] && (forall i :: 0 <= i < |hs| ==> IsHeader(hs[i]))
    requires end != "\n" && EndsBlock(Block(hs), end, body)
    ensures var s := Block(hs) + end + body;
            && SplitHeaders(s).Some? && SplitHeaders(s).value.1 == body && !EndsEarly(toInt, s)
            && EffectsOf(toInt, Lines(SplitHeaders(s).value.0)) == EffectsOf(toInt, TextsOf(hs))
  {
    hide Find, EffectsOf, Lines, IsHeader, Block, NoEmptyLine, TextsOf, Occurs, SplitHeaders, EndsEarly;
    var block := Block(hs);
    var s := block + "\r\n" + body;
    SplitAt(toInt, s);
    BlockHasNoEmptyLine(hs);
    LongEnd(block, body);
    BlockIsLines(toInt, hs, 2);
    assert s[..|block| - 2] == block[..|block| - 2] && s[|block| + 2..] == body;
  }

  /** A header block and a body, written in any pieces: every header has its effect, in order, and the
      body is what follows the empty line, up to the end; or the effects are those of the lines before
      the first one that fails, and an exception is raised. */
  lemma HeadersThenBody(toInt: string -> Option<int>, hs: seq<Header>, es: seq<Effect>, end: string, body: string,
                        chunks: seq<string>)
    requires hs != [] && (forall i :: 0 <= i < |hs| ==> IsHeader(hs[i])) && DoInTurn(toInt, hs, es)
    requires EndsBlock(Block(hs), end, body) && Concat(chunks) == Block(hs) + end + body
    ensures Run(toInt, FRESH, chunks) == if |es| == |hs| then Done(es, body, |Concat(chunks)|) else Raised(es)
  {
    hide Find, EffectsOf, Lines, Run, IsHeader, DoInTurn, Block, NoEmptyLine, SplitHeaders, EndsEarly, EndsBlock;
    var s := Block(hs) + end + body;
    EffectsInTurn(toInt, hs, es);
    if end == "\n" {
      ShortSplit(toInt, hs, body);
    } else {
      LongSplit(toInt, hs, end, body);
    }
    OneWrite(toInt, s);
    ChunksDoNotMatterIff(toInt, s);
  }
}
