/** What Python reads in the literals that the scanner writes. */
module PspReadBack {
  import opened Optional
  import opened PspLiteral
  import opened Text

  /** The outcome of reading a triple-quoted literal after its opening quotes: its value and what
      follows its closing quotes, or an error. */
  datatype Lexed = Literal(value: string, rest: string) | NotALiteral

  /** What a numeric or named escape stands for (octal digits, x, u, U and N), and how many
      characters after the backslash belong to it. */
  type Codes = string -> Option<(char, nat)>

  function Prepend(c: string, l: Lexed): Lexed {
    match l
    case Literal(v, rest) => Literal(c + v, rest)
    case NotALiteral => NotALiteral
  }

  predicate IsCodeChar(c: char) {
    '0' <= c <= '7' || c == 'x' || c == 'u' || c == 'U' || c == 'N'
  }

  /** The one-letter escapes of section 2.4.1 of the Python 3 Language Reference. */
  function EscapeOf(c: char): Option<char> {
    if c == 'n' then Some('\n')
    else if c == 'r' then Some('\r')
    else if c == 't' then Some('\t')
    else if c == '\\' || c == '\'' || c == '"' then Some(c)
    else if c == 'a' then Some(7 as char)
    else if c == 'b' then Some(8 as char)
    else if c == 'f' then Some(12 as char)
    else if c == 'v' then Some(11 as char)
    else None
  }

  /** Reads a triple-quoted literal, as section 2.4.1 of the Python 3 Language Reference has it;
      a carriage return, alone or before a newline, is read as a newline. */
  function PyLex(codes: Codes, s: string): Lexed
    decreases |s|
  {
    if s == "" then NotALiteral
    else if "\"\"\"" <= s then Literal("", s[3..])
    else if s[0] == CR then Prepend("\n", PyLex(codes, s[if "\r\n" <= s then 2 else 1..]))
    else if s[0] != '\\' then Prepend([s[0]], PyLex(codes, s[1..]))
    else if |s| == 1 then NotALiteral
    else if s[1] == LF then PyLex(codes, s[2..])
    else if s[1] == CR then PyLex(codes, s[if "\\\r\n" <= s then 3 else 2..])
    else if EscapeOf(s[1]).Some? then Prepend([EscapeOf(s[1]).value], PyLex(codes, s[2..]))
    else if IsCodeChar(s[1]) then
      match codes(s[1..])
      case None => NotALiteral
      case Some((c, k)) => if 0 < k < |s| then Prepend([c], PyLex(codes, s[1 + k..])) else NotALiteral
    else Prepend(s[..2], PyLex(codes, s[2..]))
  }

  /** Numeric and named escapes have at least one character after the backslash, and neither quotes
      nor backslashes. */
  ghost predicate AreCodes(codes: Codes) {
    forall s :: codes(s).Some? ==>
      && 0 < codes(s).value.1 <= |s|
      && forall i :: 0 <= i < codes(s).value.1 ==> s[i] != '"' && s[i] != '\\'
  }

  /** What the scanner writes for text, up to the end of the literal, and what follows. */
  function Closed(t: string, rest: string): string {
    Escape(t) + ("\"\"\"" + rest)
  }

  /** A character after which a backslash is read as the beginning of another escape of one
      character than the three that the scanner protects. */
  predicate IsActive(c: char) {
    c == 'a' || c == 'b' || c == 'f' || c == 'v' || c == '\''
  }

  /** A character that, after a backslash, is literal text with it or makes one of the escapes of
      one character. */
  predicate MayFollow(c: char) {
    c != '\\' && c != LF && c != CR && !IsCodeChar(c)
  }

  /** Neither a lone carriage return nor a backslash that is last or stands before a backslash, a
      line end, a numeric or named escape, or a double quote that is last. */
  predicate IsTameHead(t: string)
    requires t != ""
  {
    && (t[0] == CR ==> "\r\n" <= t)
    && (t[0] == '\\' ==> |t| > 1 && MayFollow(t[1]) && (t[1] == '"' ==> |t| > 2))
  }

  predicate Tame(t: string) {
    t == "" || (IsTameHead(t) && Tame(t[1..]))
  }

  predicate IsActiveHead(t: string)
    requires t != ""
  {
    t[0] == '\\' && |t| > 1 && IsActive(t[1])
  }

  /** No backslash stands before a letter or quote that makes it another escape. */
  predicate NoActive(t: string) {
    t == "" || (!IsActiveHead(t) && NoActive(t[1..]))
  }

  /** What Python makes of tame text: each active escape is one character. */
  function Decoded(t: string): string
    decreases |t|
  {
    if t == "" then ""
    else if "\r\n" <= t then "\n" + Decoded(t[2..])
    else if t[0] == '\\' && |t| > 1 then
      (if IsActive(t[1]) then [EscapeOf(t[1]).value] else t[..2]) + Decoded(t[2..])
    else t[..1] + Decoded(t[1..])
  }

  /** The literal ends before `rest`, or something as long. */
  predicate EndsBefore(l: Lexed, rest: string) {
    l.Literal? && |l.rest| == |rest|
  }

  lemma {:induction false} LexedLength(codes: Codes, s: string)
    ensures PyLex(codes, s).Literal? ==> |PyLex(codes, s).rest| + 3 <= |s|
    decreases |s|
  {
    if s == "" || "\"\"\"" <= s {
    } else if s[0] == CR {
      LexedLength(codes, s[if "\r\n" <= s then 2 else 1..]);
    } else if s[0] != '\\' {
      LexedLength(codes, s[1..]);
    } else if |s| == 1 {
    } else if s[1] == LF {
      LexedLength(codes, s[2..]);
    } else if s[1] == CR {
      LexedLength(codes, s[if "\\\r\n" <= s then 3 else 2..]);
    } else if EscapeOf(s[1]).None? && IsCodeChar(s[1]) {
      if codes(s[1..]).Some? && 0 < codes(s[1..]).value.1 < |s| {
        LexedLength(codes, s[1 + codes(s[1..]).value.1..]);
      }
    } else {
      LexedLength(codes, s[2..]);
    }
  }

  lemma LexPlain(codes: Codes, c: char, u: string)
    requires c != '\\' && c != CR && (c == '"' ==> u == "" || u[0] != '"')
    ensures PyLex(codes, [c] + u) == Prepend([c], PyLex(codes, u))
  {
    var s := [c] + u;
    assert s[0] == c && s[1..] == u;
    if |u| > 0 {
      assert s[1] == u[0];
    }
  }

  lemma LexReturn(codes: Codes, u: string)
    ensures PyLex(codes, [CR] + u) == Prepend("\n", PyLex(codes, if u != "" && u[0] == LF then u[1..] else u))
  {
    var s := [CR] + u;
    assert s[1..] == u;
    if |u| > 0 {
      assert s[1] == u[0] && s[2..] == u[1..];
    }
  }

  lemma LexEscape(codes: Codes, c: char, u: string)
    requires EscapeOf(c).Some?
    ensures PyLex(codes, ['\\', c] + u) == Prepend([EscapeOf(c).value], PyLex(codes, u))
  {
    var s := ['\\', c] + u;
    assert s[0] == '\\' && s[1] == c && s[2..] == u;
  }

  lemma LexUnknown(codes: Codes, c: char, u: string)
    requires EscapeOf(c).None? && c != LF && c != CR && !IsCodeChar(c)
    ensures PyLex(codes, ['\\', c] + u) == Prepend(['\\', c], PyLex(codes, u))
  {
    var s := ['\\', c] + u;
    assert s[0] == '\\' && s[1] == c && s[2..] == u && s[..2] == ['\\', c];
  }

  lemma LexContinued(codes: Codes, c: char, u: string)
    requires c == LF || c == CR
    ensures PyLex(codes, ['\\', c] + u) ==
            PyLex(codes, if c == CR && u != "" && u[0] == LF then u[1..] else u)
  {
    var s := ['\\', c] + u;
    assert s[0] == '\\' && s[1] == c && s[2..] == u;
    if |u| > 0 {
      assert s[2] == u[0] && s[3..] == u[1..];
    }
  }

  lemma LexCoded(codes: Codes, s: string)
    requires |s| > 1 && s[0] == '\\' && IsCodeChar(s[1])
    ensures PyLex(codes, s) ==
            match codes(s[1..])
            case None => NotALiteral
            case Some((c, k)) => if 0 < k < |s| then Prepend([c], PyLex(codes, s[1 + k..])) else NotALiteral
  {
    hide Prepend;
    assert EscapeOf(s[1]).None?;
  }

  lemma LexNoCode(codes: Codes, u: string)
    requires u != "" && IsCodeChar(u[0]) && codes(u).None?
    ensures PyLex(codes, ['\\'] + u) == NotALiteral
  {
    hide PyLex;
    var s := ['\\'] + u;
    assert s[1] == u[0] && s[1..] == u;
    LexCoded(codes, s);
  }

  lemma LexCode(codes: Codes, u: string, c: char, k: nat)
    requires u != "" && IsCodeChar(u[0]) && codes(u) == Some((c, k)) && 0 < k <= |u|
    ensures PyLex(codes, ['\\'] + u) == Prepend([c], PyLex(codes, u[k..]))
  {
    hide PyLex, Prepend;
    var s := ['\\'] + u;
    assert s[1] == u[0] && s[1..] == u && s[1 + k..] == u[k..];
    LexCoded(codes, s);
  }

  lemma PrependTwice(a: string, b: string, l: Lexed)
    ensures Prepend(a, Prepend(b, l)) == Prepend(a + b, l)
  {
    if l.Literal? {
      AppendAssoc(a, b, l.value);
    }
  }

  lemma ClosedStep(t: string, rest: string)
    requires t != ""
    ensures Closed(t, rest) == UnitCode(t) + Closed(t[UnitLen(t)..], rest)
  {
    hide UnitLen, UnitCode;
    AppendAssoc(UnitCode(t), Escape(t[UnitLen(t)..]), "\"\"\"" + rest);
  }

  lemma ClosedStarts(t: string, rest: string)
    ensures Closed(t, rest) != "" && (Closed(t, rest)[0] == '"' <==> t == "")
    ensures Closed(t, rest)[0] == LF <==> t != "" && ("\r\n" <= t || t[0] == LF)
  {
    if t != "" {
      ClosedStep(t, rest);
    }
  }

  /** What follows a run of the code without quotes and backslashes is the code for the rest of the
      text. */
  lemma {:induction false} ClosedSkip(t: string, rest: string, k: nat) returns (i: nat)
    requires k <= |Closed(t, rest)|
    requires forall j :: 0 <= j < k ==> Closed(t, rest)[j] != '"' && Closed(t, rest)[j] != '\\'
    ensures i <= |t| && Closed(t, rest)[k..] == Closed(t[i..], rest)
    ensures k + |Unix(t[i..])| == |Unix(t)|
    decreases k
  {
    if k == 0 {
      i := 0;
      assert t[0..] == t;
    } else {
      ClosedStarts(t, rest);
      ClosedStep(t, rest);
      UnixUnit(t);
      var j := UnitLen(t);
      var u := Closed(t[j..], rest);
      assert Closed(t, rest)[0] == UnitCode(t)[0];
      assert |UnitCode(t)| == 1 && |UnitText(t)| == 1;
      hide Closed;
      assert forall x :: 0 <= x < k - 1 ==> u[x] == Closed(t, rest)[x + 1];
      var i1 := ClosedSkip(t[j..], rest, k - 1);
      i := j + i1;
      assert t[j..][i1..] == t[i..];
      assert Closed(t, rest)[k..] == u[k - 1..];
    }
  }

  /** The first unit with line ends as in Unix. */
  function UnitText(t: string): string
    requires t != ""
  {
    if "\r\n" <= t then "\n" else t[..UnitLen(t)]
  }

  lemma UnixOther(t: string)
    requires t != "" && !("\r\n" <= t)
    ensures Unix(t) == t[..1] + Unix(t[1..])
  {
    assert t[..1] == [t[0]];
  }

  lemma UnixUnit(t: string)
    requires t != ""
    ensures Unix(t) == UnitText(t) + Unix(t[UnitLen(t)..])
  {
    hide Unix;
    if "\r\n" <= t {
      UnixCRLF(t);
    } else if IsProtected(t) {
      UnixPair(t);
    } else {
      UnixOther(t);
    }
  }

  lemma UnixCRLF(t: string)
    requires "\r\n" <= t
    ensures Unix(t) == "\n" + Unix(t[2..])
  {
  }

  lemma UnixPair(t: string)
    requires |t| > 1 && t[0] != CR && !("\r\n" <= t[1..])
    ensures Unix(t) == t[..2] + Unix(t[2..])
  {
    hide Unix;
    UnixOther(t);
    UnixOther(t[1..]);
    assert t[1..][1..] == t[2..] && t[..2] == t[..1] + t[1..][..1];
    AppendAssoc(t[..1], t[1..][..1], Unix(t[2..]));
  }

  /** Python's reading of the code for `t` begins with `p` and goes on with the code for `t[i..]`. */
  ghost predicate ReadsUnit(codes: Codes, t: string, rest: string, p: string, i: nat) {
    0 < i <= |t| && PyLex(codes, Closed(t, rest)) == Prepend(p, PyLex(codes, Closed(t[i..], rest)))
  }

  lemma ReadPlain(codes: Codes, t: string, rest: string)
    requires t != "" && ("\r\n" <= t || IsProtected(t) || (t[0] != CR && t[0] != '\\'))
    ensures ReadsUnit(codes, t, rest, UnitText(t), UnitLen(t))
  {
    hide PyLex, Closed, Escape;
    ClosedStep(t, rest);
    var u := Closed(t[UnitLen(t)..], rest);
    if "\r\n" <= t {
      LexPlain(codes, LF, u);
    } else if IsProtected(t) {
      assert t[..2] == ['\\'] + [t[1]];
      assert ['\\', '\\', t[1]] + u == ['\\', '\\'] + ([t[1]] + u);
      LexEscape(codes, '\\', [t[1]] + u);
      LexPlain(codes, t[1], u);
      PrependTwice(['\\'], [t[1]], PyLex(codes, u));
    } else {
      assert t[..1] == [t[0]];
      if t[0] == '"' {
        LexEscape(codes, '"', u);
      } else {
        LexPlain(codes, t[0], u);
      }
    }
  }

  /** A lone carriage return, with which Python reads a newline that follows. */
  lemma ReadReturn(codes: Codes, t: string, rest: string)
    requires t != "" && t[0] == CR && !("\r\n" <= t)
    ensures ReadsUnit(codes, t, rest, "\n", if "\r\n" <= t[1..] then 3 else 1)
  {
    hide PyLex, Closed, Escape;
    ClosedStep(t, rest);
    var u := Closed(t[1..], rest);
    ClosedStarts(t[1..], rest);
    LexReturn(codes, u);
    if "\r\n" <= t[1..] {
      AfterBreak(t, rest);
    }
  }

  lemma AfterBreak(t: string, rest: string)
    requires t != "" && "\r\n" <= t[1..]
    ensures Closed(t[1..], rest)[0] == LF && Closed(t[1..], rest)[1..] == Closed(t[3..], rest)
  {
    ClosedStep(t[1..], rest);
    assert t[1..][2..] == t[3..];
  }

  /** A backslash that the scanner leaves alone. */
  predicate IsBare(t: string) {
    t != "" && t[0] == '\\' && !IsProtected(t)
  }

  lemma ClosedBare(t: string, rest: string)
    requires IsBare(t)
    ensures Closed(t, rest) == ['\\'] + Closed(t[1..], rest)
    ensures Unix(t) == ['\\'] + Unix(t[1..])
  {
    hide Closed;
    ClosedStep(t, rest);
    UnixOther(t);
    assert t[..1] == ['\\'];
  }

  lemma TwoCodes(c: char, d: char, u: string)
    ensures [c] + ([d] + u) == [c, d] + u
  {
  }

  /** Before a character that the scanner also leaves alone. */
  lemma ClosedPair(t: string, rest: string)
    requires IsBare(t) && |t| > 1 && t[1] != '"' && !("\r\n" <= t[1..]) && !IsProtected(t[1..])
    ensures Closed(t, rest) == ['\\', t[1]] + Closed(t[2..], rest)
    ensures Unix(t) == t[..2] + Unix(t[2..])
  {
    hide Closed, Unix;
    ClosedBare(t, rest);
    ClosedStep(t[1..], rest);
    assert t[1..][1..] == t[2..];
    TwoCodes('\\', t[1], Closed(t[2..], rest));
    UnixPair(t);
  }

  lemma BareFollows(t: string)
    requires IsBare(t) && |t| > 1 && t[1] != '"' && MayFollow(t[1])
    ensures EscapeOf(t[1]).Some? <==> IsActive(t[1])
    ensures !("\r\n" <= t[1..]) && !IsProtected(t[1..])
  {
  }

  /** A backslash before a character that makes it no escape, or one of one character. */
  lemma ReadPair(codes: Codes, t: string, rest: string)
    requires IsBare(t) && |t| > 1 && t[1] != '"' && MayFollow(t[1])
    ensures ReadsUnit(codes, t, rest, if IsActive(t[1]) then [EscapeOf(t[1]).value] else t[..2], 2)
    ensures Unix(t) == t[..2] + Unix(t[2..])
  {
    hide PyLex, Closed, Unix, EscapeOf, IsProtected, IsActive;
    BareFollows(t);
    ClosedPair(t, rest);
    assert t[..2] == ['\\', t[1]];
    if IsActive(t[1]) {
      LexEscape(codes, t[1], Closed(t[2..], rest));
    } else {
      LexUnknown(codes, t[1], Closed(t[2..], rest));
    }
  }

  /** Before a double quote that is not last. */
  lemma ReadQuote(codes: Codes, t: string, rest: string)
    requires IsBare(t) && |t| > 1 && t[1] == '"'
    ensures |t| > 2 ==> ReadsUnit(codes, t, rest, t[..2], 2)
    ensures |t| == 2 ==> !EndsBefore(PyLex(codes, Closed(t, rest)), rest)
    ensures Unix(t) == t[..2] + Unix(t[2..])
  {
    hide PyLex, Closed, Unix, EndsBefore;
    ClosedQuote(t, rest);
    var u := Closed(t[2..], rest);
    LexEscape(codes, '\\', ['"'] + u);
    UnixPair(t);
    if |t| > 2 {
      ClosedStarts(t[2..], rest);
      LexPlain(codes, '"', u);
      PrependTwice(['\\'], ['"'], PyLex(codes, u));
      assert t[..2] == ['\\'] + ['"'];
    } else {
      assert t[2..] == "";
      LexFourQuotes(codes, rest);
      NotEndsBefore(['\\'], "", rest);
    }
  }

  lemma NotEndsBefore(p: string, v: string, rest: string)
    ensures !EndsBefore(Prepend(p, Literal(v, "\"" + rest)), rest)
  {
  }

  lemma ClosedQuote(t: string, rest: string)
    requires IsBare(t) && |t| > 1 && t[1] == '"'
    ensures Closed(t, rest) == ['\\', '\\'] + (['"'] + Closed(t[2..], rest))
  {
    hide Closed;
    ClosedBare(t, rest);
    ClosedStep(t[1..], rest);
    assert t[1..][1..] == t[2..];
  }

  lemma LexFourQuotes(codes: Codes, rest: string)
    ensures PyLex(codes, ['"'] + Closed("", rest)) == Literal("", "\"" + rest)
  {
    var s := ['"'] + Closed("", rest);
    assert s[..3] == "\"\"\"" && s[3..] == "\"" + rest;
  }

  /** At the end of the text, where the backslash takes the first closing quote. */
  lemma ReadLast(codes: Codes, rest: string)
    ensures !EndsBefore(PyLex(codes, Closed("\\", rest)), rest)
  {
    hide PyLex, Closed;
    var u := "\"\"" + rest;
    ClosedBare("\\", rest);
    assert Closed("", rest) == ['"'] + u by { ClosedNothing(rest); }
    TwoCodes('\\', '"', u);
    LexEscape(codes, '"', u);
    LexedLength(codes, u);
  }

  lemma ClosedNothing(rest: string)
    ensures Closed("", rest) == "\"\"\"" + rest
  {
  }

  /** Before another backslash: the two are read as one. */
  lemma ReadBackslashes(codes: Codes, t: string, rest: string) returns (p: string, i: nat)
    requires IsBare(t) && |t| > 1 && t[1] == '\\'
    ensures ReadsUnit(codes, t, rest, p, i) && |p| + |Unix(t[i..])| < |Unix(t)|
  {
    hide PyLex, Closed, Unix;
    var t1 := t[1..];
    if IsProtected(t1) {
      ClosedBare(t, rest);
      ClosedStep(t1, rest);
      UnixUnit(t1);
      var x, u := t1[1], Closed(t[3..], rest);
      assert t1[2..] == t[3..];
      assert Closed(t, rest) == ['\\', '\\'] + (['\\', x] + u);
      LexEscape(codes, '\\', ['\\', x] + u);
      LexEscape(codes, x, u);
      p, i := ['\\'] + [EscapeOf(x).value], 3;
      PrependTwice(['\\'], [EscapeOf(x).value], PyLex(codes, u));
    } else {
      ClosedPair(t, rest);
      LexEscape(codes, '\\', Closed(t[2..], rest));
      p, i := ['\\'], 2;
    }
  }

  /** Before a line end: both are dropped. */
  lemma ReadContinued(codes: Codes, t: string, rest: string) returns (i: nat)
    requires IsBare(t) && |t| > 1 && (t[1] == LF || t[1] == CR)
    ensures ReadsUnit(codes, t, rest, "", i) && |Unix(t[i..])| < |Unix(t)|
  {
    hide PyLex, Closed, Unix;
    var t1 := t[1..];
    if "\r\n" <= t1 {
      ClosedBare(t, rest);
      ClosedStep(t1, rest);
      UnixCRLF(t1);
      assert t1[2..] == t[3..];
      i := 3;
      TwoCodes('\\', LF, Closed(t[3..], rest));
      LexContinued(codes, LF, Closed(t[3..], rest));
    } else {
      ClosedPair(t, rest);
      LexContinued(codes, t[1], Closed(t[2..], rest));
      ClosedStarts(t[2..], rest);
      if t[1] == CR && t[2..] != "" && "\r\n" <= t[2..] {
        AfterBreak(t1, rest);
        assert t1[1..] == t[2..] && t1[3..] == t[4..];
        UnixCRLF(t[2..]);
        assert t[2..][2..] == t[4..];
        i := 4;
      } else {
        i := 2;
      }
    }
    PrependNothing(PyLex(codes, Closed(t[i..], rest)));
  }

  lemma PrependNothing(l: Lexed)
    ensures Prepend("", l) == l
  {
    if l.Literal? {
      assert "" + l.value == l.value;
    }
  }

  /** Before a numeric or named escape: it is read as one character. */
  lemma ReadCode(codes: Codes, t: string, rest: string) returns (p: string, i: nat)
    requires AreCodes(codes) && IsBare(t) && |t| > 1 && IsCodeChar(t[1])
    ensures PyLex(codes, Closed(t, rest)) == NotALiteral ||
            (ReadsUnit(codes, t, rest, p, i) && |p| + |Unix(t[i..])| < |Unix(t)|)
  {
    hide PyLex, Closed, Unix;
    ClosedBare(t, rest);
    ClosedStep(t[1..], rest);
    var u := Closed(t[1..], rest);
    assert u[0] == t[1];
    if codes(u).None? {
      LexNoCode(codes, u);
      p, i := "", 0;
    } else {
      var (c, k) := codes(u).value;
      LexCode(codes, u, c, k);
      var j := ClosedSkip(t[1..], rest, k);
      p, i := [c], 1 + j;
      assert t[1..][j..] == t[i..];
    }
  }

  lemma TameTail(t: string, i: nat)
    requires t != "" && IsTameHead(t) && (i == 1 || (i == 2 && |t| > 1 && t[1] != '\\' && t[1] != CR))
    ensures Tame(t) <==> Tame(t[i..])
  {
    if i == 2 {
      assert t[1..][0] == t[1] && t[1..][1..] == t[2..];
    }
  }

  lemma NoActiveTail(t: string, i: nat)
    requires t != "" && !IsActiveHead(t) && (i == 1 || (i == 2 && |t| > 1 && t[1] != '\\'))
    ensures NoActive(t) <==> NoActive(t[i..])
  {
    if i == 2 {
      assert t[1..][0] == t[1] && t[1..][1..] == t[2..];
    }
  }

  /** A unit of text that Python reads as it is: it goes on with the rest of the text. */
  lemma ReadTame(codes: Codes, t: string, rest: string) returns (p: string, i: nat)
    requires t != "" && IsTameHead(t)
    ensures ReadsUnit(codes, t, rest, p, i)
    ensures Decoded(t) == p + Decoded(t[i..]) && (Tame(t) <==> Tame(t[i..]))
    ensures !IsActiveHead(t) ==> Unix(t) == p + Unix(t[i..]) && (NoActive(t) <==> NoActive(t[i..]))
    ensures IsActiveHead(t) ==> |p| + |Unix(t[i..])| < |Unix(t)|
  {
    hide PyLex, Closed, Unix, Tame, NoActive, Decoded, ReadsUnit, EscapeOf;
    if "\r\n" <= t || IsProtected(t) || t[0] != '\\' {
      ReadPlain(codes, t, rest);
      UnixUnit(t);
      p, i := UnitText(t), UnitLen(t);
      DecodedUnit(t);
    } else if t[1] == '"' {
      ReadQuote(codes, t, rest);
      p, i := t[..2], 2;
      DecodedPair(t);
    } else {
      BareFollows(t);
      ReadPair(codes, t, rest);
      p, i := if IsActive(t[1]) then [EscapeOf(t[1]).value] else t[..2], 2;
      DecodedPair(t);
    }
    TameTail(t, i);
    if !IsActiveHead(t) {
      NoActiveTail(t, i);
    }
  }

  lemma DecodedUnit(t: string)
    requires t != "" && ("\r\n" <= t || IsProtected(t) || t[0] != '\\')
    ensures Decoded(t) == UnitText(t) + Decoded(t[UnitLen(t)..])
  {
  }

  lemma DecodedPair(t: string)
    requires |t| > 1 && t[0] == '\\'
    ensures Decoded(t) ==
            (if IsActive(t[1]) then [EscapeOf(t[1]).value] else t[..2]) + Decoded(t[2..])
  {
  }

  /** Any other: Python reads less, or another first character, or does not come to the end. */
  lemma ReadOther(codes: Codes, t: string, rest: string) returns (p: string, i: nat)
    requires AreCodes(codes) && t != "" && !IsTameHead(t)
    ensures !EndsBefore(PyLex(codes, Closed(t, rest)), rest) ||
            (ReadsUnit(codes, t, rest, p, i) && |p| + |Unix(t[i..])| <= |Unix(t)| &&
             (|p| + |Unix(t[i..])| < |Unix(t)| || (p != "" && p[0] != Unix(t)[0])))
  {
    hide PyLex, Closed, Unix, ReadsUnit, AreCodes;
    if t[0] == CR {
      ReadReturn(codes, t, rest);
      UnixOther(t);
      p, i := "\n", if "\r\n" <= t[1..] then 3 else 1;
      if i == 3 {
        UnixCRLF(t[1..]);
        assert t[1..][2..] == t[3..];
      }
    } else if |t| == 1 {
      ReadLast(codes, rest);
      assert t == "\\";
      p, i := "", 0;
    } else if t[1] == '"' {
      ReadQuote(codes, t, rest);
      p, i := "", 0;
    } else if t[1] == '\\' {
      p, i := ReadBackslashes(codes, t, rest);
    } else if t[1] == LF || t[1] == CR {
      p := "";
      i := ReadContinued(codes, t, rest);
    } else {
      p, i := ReadCode(codes, t, rest);
    }
  }

  /** Python never reads more than the text, whatever the text. */
  lemma {:induction false} ReadingIsShort(codes: Codes, t: string, rest: string)
    requires AreCodes(codes)
    ensures var l := PyLex(codes, Closed(t, rest));
            EndsBefore(l, rest) ==> |l.value| <= |Unix(t)|
    decreases |t|
  {
    hide PyLex, Closed, Unix, AreCodes, IsTameHead, IsActiveHead, Tame, NoActive, Decoded;
    if t == "" {
      ReadNothing(codes, rest);
    } else {
      var p, i;
      if IsTameHead(t) {
        p, i := ReadTame(codes, t, rest);
      } else {
        p, i := ReadOther(codes, t, rest);
      }
      if ReadsUnit(codes, t, rest, p, i) {
        ReadingIsShort(codes, t[i..], rest);
      }
    }
  }

  lemma ReadNothing(codes: Codes, rest: string)
    ensures PyLex(codes, Closed("", rest)) == Literal("", rest)
  {
    ClosedNothing(rest);
    var s := "\"\"\"" + rest;
    assert s[3..] == rest;
  }

  /** Python reads the literal of tame text to its end, as the decoded text. */
  lemma {:induction false} LiteralIsDecoded(codes: Codes, t: string, rest: string)
    requires Tame(t)
    ensures PyLex(codes, Closed(t, rest)) == Literal(Decoded(t), rest)
    decreases |t|
  {
    hide PyLex, Closed, Unix, NoActive, IsActiveHead, Decoded;
    if t == "" {
      ReadNothing(codes, rest);
      assert Decoded("") == "" by { DecodedNothing(); }
    } else {
      var p, i := ReadTame(codes, t, rest);
      LiteralIsDecoded(codes, t[i..], rest);
    }
  }

  lemma DecodedNothing()
    ensures Decoded("") == "" && Unix("") == ""
  {
  }

  /** Python reads back the literal of a text, with line ends as in Unix, if and only if the text
      has no lone carriage return, and no backslash in it is last or stands before a backslash, a
      line end, a last double quote, or what makes it an escape that the scanner does not protect. */
  lemma {:induction false} LiteralReadsBackIff(codes: Codes, t: string, rest: string)
    requires AreCodes(codes)
    ensures PyLex(codes, Closed(t, rest)) == Literal(Unix(t), rest) <==> Tame(t) && NoActive(t)
    decreases |t|
  {
    hide PyLex, Closed, Unix, AreCodes, IsTameHead, IsActiveHead, Decoded;
    if t == "" {
      ReadNothing(codes, rest);
      DecodedNothing();
    } else {
      var p, i;
      if IsTameHead(t) {
        p, i := ReadTame(codes, t, rest);
      } else {
        p, i := ReadOther(codes, t, rest);
      }
      hide Tame, NoActive;
      if IsTameHead(t) && !IsActiveHead(t) {
        LiteralReadsBackIff(codes, t[i..], rest);
        PrependCancels(p, PyLex(codes, Closed(t[i..], rest)), Unix(t[i..]), rest);
      } else if ReadsUnit(codes, t, rest, p, i) {
        ReadingIsShort(codes, t[i..], rest);
      }
    }
  }

  lemma PrependCancels(p: string, l: Lexed, v: string, rest: string)
    ensures Prepend(p, l) == Literal(p + v, rest) <==> l == Literal(v, rest)
  {
    if l.Literal? && p + l.value == p + v {
      assert l.value == (p + l.value)[|p|..] == (p + v)[|p|..] == v;
    }
  }

  /** So text that ends in a backslash is never read back. */
  lemma BackslashAtEnd(codes: Codes, t: string, rest: string)
    requires AreCodes(codes) && t != "" && t[|t| - 1] == '\\'
    ensures PyLex(codes, Closed(t, rest)) != Literal(Unix(t), rest)
  {
    hide PyLex, Closed, Unix, AreCodes;
    LiteralReadsBackIff(codes, t, rest);
    LastIsNotTame(t);
  }

  lemma {:induction false} LastIsNotTame(t: string)
    requires t != "" && t[|t| - 1] == '\\'
    ensures !Tame(t)
  {
    if |t| > 1 {
      LastIsNotTame(t[1..]);
    }
  }
}
