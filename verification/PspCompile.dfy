/** The scanner compiles templates of text, expressions, blocks of code and comments. */
module PspCompile {
  import opened PspInclude
  import opened PspLiteral
  import opened PspScanner
  import opened Text

  /** The parts of a template; an included file has its own, and other directives are skipped. */
  datatype Item = Literal(text: string) | Expr(code: string) | Block(code: string) | Remark(note: string)
                | Included(d: Directive, contents: seq<Item>) | Skipped(text: string)

  function PrintItem(i: Item): string {
    match i
    case Literal(text) => text
    case Expr(code) => "<%=" + (code + "%>")
    case Block(code) => "<%" + (code + "%>")
    case Remark(note) => "<%--" + (note + "--%>")
    case Included(d, _) => PrintDirective(d)
    case Skipped(text) => "<%@" + (text + "%>")
  }

  function Print(items: seq<Item>): string {
    if items == [] then "" else PrintItem(items[0]) + Print(items[1..])
  }

  predicate IsBreak(c: char) {
    c == LF || c == CR
  }

  /** Code with all line ends written as in Unix. */
  function UnixCode(code: string): string
    decreases |code|
  {
    if code == "" then ""
    else if "\r\n" <= code then "\n" + UnixCode(code[2..])
    else (if IsBreak(code[0]) then "\n" else code[..1]) + UnixCode(code[1..])
  }

  predicate HasBreak(code: string) {
    exists i :: 0 <= i < |code| && IsBreak(code[i])
  }

  /** What the end of a block tells about the text after it: its indentation, and whether it
      belongs to a compound statement. */
  datatype Ending = Ending(indent: string, colon: bool)

  /** The ending of code that goes on in a line, and of code at the beginning of a line; the
      blanks there count only after a newline. */
  function LineEnding(code: string, e: Ending): Ending
    decreases |code|, 0
  {
    if code == "" then e
    else if "\r\n" <= code then BreakEnding(code[2..], true, e)
    else if IsBreak(code[0]) then BreakEnding(code[1..], code[0] == LF, e)
    else LineEnding(code[1..], e.(colon := code[0] == ':'))
  }

  function BreakEnding(code: string, newline: bool, e: Ending): Ending
    decreases |code|, 1
  {
    if code == "" then e
    else if newline && IsBlankChar(code[0]) then
      LineEnding(code[CountBlanks(code)..], e.(indent := code[..CountBlanks(code)]))
    else LineEnding(code, e.(indent := ""))
  }

  /** The code that an item becomes, between the calls that write the text around it, and whether a
      colon is pending after it. */
  function Compiled(i: Item, colon: bool): (string, bool)
    decreases i
  {
    match i
    case Literal(text) => (Escape(text), colon)
    case Remark(_) => ("", colon)
    case Skipped(_) => ("", colon)
    case Included(_, contents) => CompiledAll(contents, colon)
    case Expr(code) =>
      ("\"\"\",0)" + ("; req.write(str(" + (UnixCode(code) + ("),0); " + "req.write(\"\"\""))),
       LineEnding(code, Ending("", colon)).colon)
    case Block(code) =>
      var e := LineEnding(code, Ending("", colon));
      var end := (if HasBreak(code) then "" else ";") + (e.indent + if e.colon then "\t" else "");
      ("\"\"\",0)" + (";" + (UnixCode(code) + (end + "req.write(\"\"\""))), false)
  }

  function CompiledAll(items: seq<Item>, colon: bool): (string, bool)
    decreases items
  {
    if items == [] then ("", colon)
    else
      var (first, c) := Compiled(items[0], colon);
      var (others, c') := CompiledAll(items[1..], c);
      (first + others, c')
  }

  /** The whole generated code. */
  function Program(items: seq<Item>): string {
    "req.write(\"\"\"" + (CompiledAll(items, false).0 + ("\"\"\",0)" + "\n"))
  }

  predicate IsItem(env: Env, i: Item)
    decreases i
  {
    match i
    case Literal(text) => !Occurs("<%", text)
    case Expr(code) => !Occurs("%>", code)
    case Block(code) => !Occurs("%>", code) && !("=" <= code) && !("@" <= code) && !("--" <= code)
    case Remark(note) => !Occurs("--%>", note)
    case Skipped(text) => IsSkipped(text)
    case Included(d, contents) =>
      && IsDirective(d) && PathOf(env, d.file) in env.files
      && env.files[PathOf(env, d.file)] == Print(contents) && AreItems(env, contents)
  }

  /** What an item asks of those after it: no literal follows another, and no quote follows the file
      name of a directive before the next space. */
  predicate MayPrecede(i: Item, items: seq<Item>) {
    && (i.Literal? && items != [] ==> !items[0].Literal?)
    && (i.Included? ==> !QuoteAhead(After(i.d, Print(items))))
  }

  /** Items that can be told apart. */
  predicate AreItems(env: Env, items: seq<Item>)
    decreases items
  {
    items != [] ==>
      IsItem(env, items[0]) && MayPrecede(items[0], items[1..]) && AreItems(env, items[1..])
  }

  /** The token that code begins with, whatever follows it. */
  function CodeToken(code: string): Match
    requires code != ""
  {
    if "\r\n" <= code then Match(CodeEol, 2)
    else if IsBreak(code[0]) then Match(CodeEol, 1)
    else if code[0] == ':' then Match(Colon, 1)
    else Match(CodeChar, 1)
  }

  lemma NotHere(p: string, s: string)
    requires !Occurs(p, s)
    ensures !(p <= s)
  {
    if p <= s {
      OccursHere(p, s);
    }
  }

  lemma NoCloseAhead(code: string, k: string)
    requires code != "" && !Occurs("%>", code)
    ensures !("%>" <= code + ("%>" + k))
  {
    NotHere("%>", code);
    hide Occurs;
    var u := code + ("%>" + k);
    assert u[0] == code[0];
    assert u[1] == if |code| > 1 then code[1] else '%';
  }

  lemma CodeTokenIs(atBol: bool, code: string, k: string)
    requires code != "" && !Occurs("%>", code)
    ensures FindMatch(InCode, atBol, code + ("%>" + k)) == CodeToken(code)
  {
    hide IncludeLen, Occurs;
    NoCloseAhead(code, k);
    var u := code + ("%>" + k);
    assert u[0] == code[0];
    if |code| > 1 {
      assert u[1] == code[1];
    } else {
      assert u[1] == '%';
    }
  }

  lemma NoCloseTail(code: string, i: nat)
    requires i <= |code| && !Occurs("%>", code)
    ensures !Occurs("%>", code[i..])
  {
    if Occurs("%>", code[i..]) {
      OccursAfter("%>", code, i);
    }
  }

  lemma ActOnToken(env: Env, s: Scanner, rule: Rule, tok: string)
    requires s.inputs != [] && tok <= s.inputs[0] && IsCodeRule(rule) && !PushesBack(rule)
    ensures Act(env, s, rule, tok) == ActToken(Consume(s, |tok|), rule, tok)
  {
    hide ActToken, ActText, ActInclude;
  }

  /** A step on a token of code that is consumed. */
  lemma StepToken(env: Env, s: Scanner, code: string, k: string, outer: seq<string>, m: Match)
    requires (s.mode.InCode? || s.mode.InIndent?) && !s.done && code != "" && m.len <= |code|
    requires FindMatch(s.mode, s.atBol, code + k) == m && IsCodeRule(m.rule) && !PushesBack(m.rule)
    ensures Step(env, s.(inputs := [code + k] + outer)) ==
            ActToken(s.(inputs := [code[m.len..] + k] + outer), m.rule, code[..m.len])
  {
    hide FindMatch, Act, ActToken;
    var s0 := s.(inputs := [code + k] + outer);
    assert (code + k)[..m.len] == code[..m.len];
    assert (code + k)[m.len..] == code[m.len..] + k;
    ActOnToken(env, s0, m.rule, code[..m.len]);
    assert s0.inputs[0 := code[m.len..] + k] == [code[m.len..] + k] + outer;
  }

  /** A step that ends an indentation. */
  lemma StepPushBack(env: Env, s: Scanner, m: Match)
    requires s.mode.InIndent? && !s.done && s.inputs != [] && s.inputs[0] != ""
    requires FindMatch(s.mode, s.atBol, s.inputs[0]) == m && PushesBack(m.rule)
    ensures Step(env, s) == s.(mode := InCode, whitespace := if m.rule == IndentClose then s.whitespace else "")
  {
    hide FindMatch, ActText, ActInclude, ActToken;
  }

  lemma BlanksAhead(code: string, k: string)
    ensures CountBlanks(code + ("%>" + k)) == CountBlanks(code)
  {
    var u := code + ("%>" + k);
    if code == "" {
      assert u[0] == '%';
    } else {
      assert u[0] == code[0] && u[1..] == code[1..] + ("%>" + k);
      BlanksAhead(code[1..], k);
    }
  }

  /** The token at the beginning of a line of code. */
  lemma IndentTokenIs(atBol: bool, code: string, k: string)
    requires !Occurs("%>", code)
    ensures var m := FindMatch(InIndent, atBol, code + ("%>" + k));
            if code == "" then m == Match(IndentClose, 2)
            else if atBol && IsBlankChar(code[0]) then m == Match(Blanks, CountBlanks(code))
            else m.rule == IndentEol || m.rule == IndentChar
  {
    hide IncludeLen, Occurs;
    var u := code + ("%>" + k);
    if code == "" {
      assert u[0] == '%' && u[1] == '>';
    } else {
      NoCloseAhead(code, k);
      BlanksAhead(code, k);
      assert u[0] == code[0];
    }
  }

  lemma UnixChar(code: string)
    requires code != "" && !IsBreak(code[0])
    ensures UnixCode(code) == code[..1] + UnixCode(code[1..])
  {
  }

  lemma {:induction false} UnixBlanks(code: string, i: nat)
    requires i <= CountBlanks(code)
    ensures UnixCode(code) == code[..i] + UnixCode(code[i..])
  {
    hide UnixCode;
    if i == 0 {
      assert code[0..] == code && "" + UnixCode(code) == UnixCode(code);
    } else {
      var rest := code[1..];
      assert IsBlankChar(code[0]);
      UnixBlanks(rest, i - 1);
      UnixChar(code);
      assert rest[i - 1..] == code[i..] && code[..i] == code[..1] + rest[..i - 1];
      AppendAssoc(code[..1], rest[..i - 1], UnixCode(code[i..]));
    }
  }

  lemma BreakTail(code: string, i: nat)
    requires i <= |code| && forall j :: 0 <= j < i ==> !IsBreak(code[j])
    ensures HasBreak(code) == HasBreak(code[i..])
  {
    if HasBreak(code) {
      var j :| 0 <= j < |code| && IsBreak(code[j]);
      assert code[i..][j - i] == code[j];
    }
    if HasBreak(code[i..]) {
      var j :| 0 <= j < |code[i..]| && IsBreak(code[i..][j]);
      assert code[i + j] == code[i..][j];
    }
  }

  /** The scanner after code, before what closes it. */
  function AfterCode(s: Scanner, code: string, rest: seq<string>, out: seq<Piece>, atBol: bool): Scanner {
    var e := LineEnding(code, Ending(s.whitespace, s.afterColon));
    s.(inputs := rest, pycode := s.pycode + out, atBol := atBol, whitespace := e.indent,
       afterColon := e.colon, seenNewline := s.seenNewline || HasBreak(code))
  }

  /** The same from the beginning of a line. */
  function AfterIndent(s: Scanner, code: string, rest: seq<string>, out: seq<Piece>, atBol: bool): Scanner {
    var e := BreakEnding(code, s.atBol, Ending(s.whitespace, s.afterColon));
    s.(mode := InCode, inputs := rest, pycode := s.pycode + out, atBol := atBol, whitespace := e.indent,
       afterColon := e.colon, seenNewline := s.seenNewline || HasBreak(code))
  }

  /** The token of code and what it is in the generated code. */
  lemma UnixToken(code: string)
    requires code != ""
    ensures var m := CodeToken(code);
            && 0 < m.len <= |code| && IsCodeRule(m.rule) && !PushesBack(m.rule)
            && UnixCode(code) == (if m.rule == CodeEol then "\n" else code[..1]) + UnixCode(code[m.len..])
            && (m.rule == CodeEol ==> HasBreak(code))
            && (m.rule != CodeEol ==> m.len == 1 && !IsBreak(code[0]))
  {
    if "\r\n" <= code {
      assert IsBreak(code[0]);
    } else if IsBreak(code[0]) {
    } else {
    }
  }

  /** The piece that a token of code becomes. */
  function TokenPiece(code: string): Piece
    requires code != ""
  {
    if CodeToken(code).rule == CodeEol then Chars("\n") else Chars(code[..1])
  }

  function AfterToken(s: Scanner, code: string): Scanner
    requires code != ""
  {
    if CodeToken(code).rule == CodeEol then
      Emit(s, Chars("\n")).(seenNewline := true, mode := InIndent, atBol := "\r\n" <= code || code[0] == LF)
    else Emit(s, Chars(code[..1])).(afterColon := code[0] == ':')
  }

  lemma ActIsAfterToken(s: Scanner, code: string)
    requires code != ""
    ensures var m := CodeToken(code);
            m.len <= |code| && IsCodeRule(m.rule) && !PushesBack(m.rule) &&
            ActToken(s, m.rule, code[..m.len]) == AfterToken(s, code)
  {
    hide AfterBlock;
    if "\r\n" <= code {
      assert code[..2] != "\r";
    } else if IsBreak(code[0]) {
      assert code[..1] == [code[0]];
    } else if code[0] == ':' {
    } else {
    }
  }

  lemma AfterBreakStep(s: Scanner, code: string, inputs: seq<string>, out: seq<Piece>, atBol: bool)
    requires s.mode.InCode? && code != "" && CodeToken(code).rule == CodeEol
    ensures CodeToken(code).len <= |code|
    ensures AfterIndent(AfterToken(s, code), code[CodeToken(code).len..], inputs, out, atBol) ==
            AfterCode(s, code, inputs, [TokenPiece(code)] + out, atBol)
  {
    hide HasBreak, BreakEnding;
    UnixToken(code);
    assert s.pycode + [Chars("\n")] + out == s.pycode + ([Chars("\n")] + out);
  }

  lemma AfterCharStep(s: Scanner, code: string, inputs: seq<string>, out: seq<Piece>, atBol: bool)
    requires s.mode.InCode? && code != "" && CodeToken(code).rule != CodeEol
    ensures AfterCode(AfterToken(s, code), code[1..], inputs, out, atBol) ==
            AfterCode(s, code, inputs, [TokenPiece(code)] + out, atBol)
  {
    UnixToken(code);
    BreakTail(code, 1);
    hide HasBreak;
    var p := Chars(code[..1]);
    assert s.pycode + [p] + out == s.pycode + ([p] + out);
  }

  lemma AppendPiece(a: seq<Piece>, p: Piece, b: seq<Piece>)
    ensures a + [p] + b == a + ([p] + b)
  {
  }

  lemma PieceThen(p: Piece, out: seq<Piece>)
    ensures Render([p] + out) == PieceText(p) + Render(out)
  {
    RenderConcat([p], out);
    RenderOne(p);
  }

  lemma StepThen(env: Env, s: Scanner, n: nat)
    ensures Run(env, s, n + 1) == Run(env, Step(env, s), n)
  {
    hide Step;
  }

  lemma RunNone(env: Env, s: Scanner)
    ensures Run(env, s, 0) == s
  {
  }

  lemma {:induction false} CodeRun(env: Env, s: Scanner, code: string, k: string, outer: seq<string>)
      returns (n: nat, out: seq<Piece>, atBol: bool)
    requires s.mode.InCode? && !s.done && !Occurs("%>", code)
    ensures Run(env, s.(inputs := [code + ("%>" + k)] + outer), n) ==
            AfterCode(s, code, ["%>" + k] + outer, out, atBol)
    ensures Render(out) == UnixCode(code)
    decreases |code|, 0
  {
    hide Step, Run, FindMatch, Occurs, HasBreak, Render, UnixCode, ActToken, AfterIndent;
    var end := "%>" + k;
    if code == "" {
      RunNone(env, s.(inputs := [end] + outer));
      n, out, atBol := 0, [], s.atBol;
      assert code + end == end && s.pycode + out == s.pycode;
      NoCode();
    } else {
      hide AfterCode;
      UnixToken(code);
      CodeTokenIs(s.atBol, code, k);
      var m := CodeToken(code);
      var rest := code[m.len..];
      NoCloseTail(code, m.len);
      StepToken(env, s, code, end, outer, m);
      var s1 := AfterToken(s, code);
      ActIsAfterToken(s.(inputs := [rest + end] + outer), code);
      var n1, out1;
      if m.rule == CodeEol {
        n1, out1, atBol := IndentRun(env, s1, rest, k, outer);
        AfterBreakStep(s, code, ["%>" + k] + outer, out1, atBol);
      } else {
        n1, out1, atBol := CodeRun(env, s1, rest, k, outer);
        AfterCharStep(s, code, ["%>" + k] + outer, out1, atBol);
      }
      n, out := n1 + 1, [TokenPiece(code)] + out1;
      StepThen(env, s.(inputs := [code + end] + outer), n1);
      PieceThen(TokenPiece(code), out1);
    }
  }

  lemma NoCode()
    ensures UnixCode("") == "" && !HasBreak("") && Render([]) == ""
  {
  }

  lemma AfterBlanksStep(s: Scanner, code: string, i: nat, inputs: seq<string>, out: seq<Piece>, atBol: bool)
    requires s.mode.InIndent? && s.atBol && code != "" && IsBlankChar(code[0]) && i == CountBlanks(code)
    ensures AfterCode(Emit(s, Chars(code[..i])).(whitespace := code[..i], mode := InCode), code[i..], inputs, out,
                      atBol) ==
            AfterIndent(s, code, inputs, [Chars(code[..i])] + out, atBol)
  {
    BreakTail(code, i);
    hide HasBreak, LineEnding;
    AppendPiece(s.pycode, Chars(code[..i]), out);
  }

  lemma AfterPushBackStep(s: Scanner, code: string, inputs: seq<string>, out: seq<Piece>, atBol: bool)
    requires s.mode.InIndent? && code != "" && !(s.atBol && IsBlankChar(code[0]))
    ensures AfterCode(s.(mode := InCode, whitespace := ""), code, inputs, out, atBol) ==
            AfterIndent(s, code, inputs, out, atBol)
  {
    hide HasBreak, LineEnding;
  }

  lemma {:induction false} IndentRun(env: Env, s: Scanner, code: string, k: string, outer: seq<string>)
      returns (n: nat, out: seq<Piece>, atBol: bool)
    requires s.mode.InIndent? && !s.done && !Occurs("%>", code)
    ensures Run(env, s.(inputs := [code + ("%>" + k)] + outer), n) ==
            AfterIndent(s, code, ["%>" + k] + outer, out, atBol)
    ensures Render(out) == UnixCode(code)
    decreases |code|, 1
  {
    hide Step, Run, FindMatch, Occurs, HasBreak, Render, UnixCode, AfterCode;
    var end := "%>" + k;
    var s0 := s.(inputs := [code + end] + outer);
    IndentTokenIs(s.atBol, code, k);
    var m := FindMatch(InIndent, s.atBol, code + end);
    if code == "" {
      StepPushBack(env, s0, m);
      n, out, atBol := 1, [], s.atBol;
      assert code + end == end && s.pycode + out == s.pycode;
      NoCode();
      RunOne(env, s0);
    } else if s.atBol && IsBlankChar(code[0]) {
      hide AfterIndent;
      StepToken(env, s, code, end, outer, m);
      var rest, p := code[m.len..], Chars(code[..m.len]);
      NoCloseTail(code, m.len);
      var n1, out1;
      n1, out1, atBol := CodeRun(env, Emit(s, p).(whitespace := code[..m.len], mode := InCode), rest, k, outer);
      AfterBlanksStep(s, code, m.len, ["%>" + k] + outer, out1, atBol);
      n, out := n1 + 1, [p] + out1;
      StepThen(env, s0, n1);
      PieceThen(p, out1);
      UnixBlanks(code, m.len);
    } else {
      hide AfterIndent;
      StepPushBack(env, s0, m);
      var n1;
      n1, out, atBol := CodeRun(env, s.(mode := InCode, whitespace := ""), code, k, outer);
      AfterPushBackStep(s, code, ["%>" + k] + outer, out, atBol);
      n := n1 + 1;
      StepThen(env, s0, n1);
    }
  }

  /** The scanner between two items. */
  predicate IsBetween(s: Scanner, colon: bool) {
    s.mode.InText? && !s.done && !s.isEcho && s.afterColon == colon
  }

  lemma ActOpen(env: Env, s: Scanner, rule: Rule, tok: string)
    requires s.inputs != [] && tok <= s.inputs[0] && IsTextRule(rule)
    ensures Act(env, s, rule, tok) == ActText(Consume(s, |tok|), rule, tok)
  {
    hide ActText, ActInclude, ActCode;
  }

  /** A step on a tag that opens code or a comment. */
  lemma StepOpen(env: Env, s: Scanner, tag: string, t: string, outer: seq<string>, rule: Rule)
    requires s.mode.InText? && !s.done && tag != "" && IsTextRule(rule)
    requires FindMatch(InText, s.atBol, tag + t) == Match(rule, |tag|)
    ensures Step(env, s.(inputs := [tag + t] + outer)) == ActText(s.(inputs := [t] + outer), rule, tag)
  {
    hide FindMatch, Act, ActText;
    var s0 := s.(inputs := [tag + t] + outer);
    assert (tag + t)[..|tag|] == tag && (tag + t)[|tag|..] == t;
    ActOpen(env, s0, rule, tag);
    assert s0.inputs[0 := t] == [t] + outer;
  }

  lemma OpenExprMatch(atBol: bool, t: string)
    ensures FindMatch(InText, atBol, "<%=" + t) == Match(OpenExpr, 3)
  {
    hide IncludeLen;
    var u := "<%=" + t;
    assert u[0] == '<' && u[1] == '%' && u[2] == '=';
  }

  lemma OpenCommentMatch(atBol: bool, t: string)
    ensures FindMatch(InText, atBol, "<%--" + t) == Match(OpenComment, 4)
  {
    hide IncludeLen;
    var u := "<%--" + t;
    assert u[0] == '<' && u[1] == '%' && u[2] == '-' && u[3] == '-';
  }

  lemma OpenCodeMatch(atBol: bool, code: string, k: string)
    requires !("=" <= code) && !("@" <= code) && !("--" <= code)
    ensures FindMatch(InText, atBol, "<%" + (code + ("%>" + k))) == Match(OpenCode, 2)
  {
    hide IncludeLen;
    var t := code + ("%>" + k);
    var u := "<%" + t;
    assert u[0] == '<' && u[1] == '%' && u[2] == t[0] && u[3] == t[1];
    assert t[0] == if code == "" then '%' else code[0];
    assert |code| > 0 ==> t[1] == if |code| == 1 then '%' else code[1];
  }

  lemma StepClose(env: Env, s: Scanner, k: string, outer: seq<string>)
    requires s.mode.InCode? && !s.done && s.inputs == ["%>" + k] + outer
    ensures Step(env, s) == AfterBlock(s.(inputs := [k] + outer)).(mode := InText)
  {
    hide AfterBlock, IncludeLen;
    var u := "%>" + k;
    assert u[0] == '%' && u[1] == '>' && u[..2] == "%>" && u[2..] == k;
    var m := FindMatch(InCode, s.atBol, u);
    assert m == Match(CloseCode, 2);
    ActOnToken(env, s, CloseCode, u[..2]);
    hide FindMatch, Act;
    assert s.inputs[0 := k] == [k] + outer;
  }

  lemma ColonIgnoresIndent(code: string, e: Ending, f: Ending)
    requires e.colon == f.colon
    ensures LineEnding(code, e).colon == LineEnding(code, f).colon
    decreases |code|, 0
  {
    if code == "" {
    } else if "\r\n" <= code {
      BreakIgnoresIndent(code[2..], true, e, f);
    } else if IsBreak(code[0]) {
      BreakIgnoresIndent(code[1..], code[0] == LF, e, f);
    } else {
      var c := code[0] == ':';
      ColonIgnoresIndent(code[1..], e.(colon := c), f.(colon := c));
    }
  }

  lemma BreakIgnoresIndent(code: string, newline: bool, e: Ending, f: Ending)
    requires e.colon == f.colon
    ensures BreakEnding(code, newline, e).colon == BreakEnding(code, newline, f).colon
    decreases |code|, 1
  {
    if code == "" {
    } else if newline && IsBlankChar(code[0]) {
      var i := CountBlanks(code);
      ColonIgnoresIndent(code[i..], e.(indent := code[..i]), f.(indent := code[..i]));
    } else {
      ColonIgnoresIndent(code, e.(indent := ""), f.(indent := ""));
    }
  }

  lemma {:induction false} ExprRun(env: Env, s: Scanner, code: string, k: string, outer: seq<string>)
      returns (n: nat, s': Scanner, out: seq<Piece>)
    requires s.mode.InText? && !s.done && !s.isEcho && !Occurs("%>", code)
    ensures Run(env, s.(inputs := ["<%=" + (code + ("%>" + k))] + outer), n) == s'.(inputs := [k] + outer)
    ensures IsBetween(s', LineEnding(code, Ending("", s.afterColon)).colon) && s'.failed == s.failed
    ensures s'.pycode == s.pycode + ([CloseWrite, OpenStr] + out + [CloseStr, OpenWrite])
    ensures Render(out) == UnixCode(code)
  {
    hide Step, Run, FindMatch, Occurs, Render, UnixCode, LineEnding;
    var t := code + ("%>" + k);
    OpenExprMatch(s.atBol, t);
    StepOpen(env, s, "<%=", t, outer, OpenExpr);
    var s1 := s.(pycode := s.pycode + [CloseWrite] + [OpenStr], isEcho := true, mode := InCode);
    var n1, atBol;
    n1, out, atBol := CodeRun(env, s1, code, k, outer);
    var s2 := AfterCode(s1, code, ["%>" + k] + outer, out, atBol);
    StepClose(env, s2, k, outer);
    s' := s2.(inputs := [k] + outer, pycode := s2.pycode + [CloseStr] + [OpenWrite], isEcho := false, mode := InText);
    n := (n1 + 1) + 1;
    StepThen(env, s.(inputs := ["<%=" + t] + outer), n1 + 1);
    RunAdd(env, s1.(inputs := [t] + outer), n1, 1);
    RunOne(env, s2);
    ColonIgnoresIndent(code, Ending(s.whitespace, s.afterColon), Ending("", s.afterColon));
    assert s'.pycode == s.pycode + ([CloseWrite, OpenStr] + out + [CloseStr, OpenWrite]);
  }

  /** The pieces after a block, for the text that follows. */
  function BlockEnd(code: string, e: Ending): seq<Piece> {
    (if HasBreak(code) then [] else [Chars(";")]) + [Chars(e.indent + if e.colon then "\t" else ""), OpenWrite]
  }

  lemma AfterBlockIs(s: Scanner, code: string)
    requires !s.isEcho && s.seenNewline == HasBreak(code)
    ensures AfterBlock(s) ==
            s.(pycode := s.pycode + BlockEnd(code, Ending(s.whitespace, s.afterColon)), afterColon := false,
               whitespace := s.whitespace + if s.afterColon then "\t" else "")
  {
    hide HasBreak;
    var w := Chars(s.whitespace + if s.afterColon then "\t" else "");
    assert s.whitespace + "" == s.whitespace;
    if HasBreak(code) {
      assert s.pycode + [w] + [OpenWrite] == s.pycode + ([] + [w, OpenWrite]);
    } else {
      assert s.pycode + [Chars(";")] + [w] + [OpenWrite] == s.pycode + ([Chars(";")] + [w, OpenWrite]);
    }
  }

  /** The scanner where a block's code begins. */
  function InBlock(s: Scanner): Scanner {
    s.(pycode := s.pycode + [CloseWrite] + [Chars(";")], whitespace := "", seenNewline := false, mode := InCode)
  }

  lemma BlockSteps(env: Env, s: Scanner, code: string, k: string, outer: seq<string>)
      returns (n: nat, out: seq<Piece>, atBol: bool)
    requires s.mode.InText? && !s.done && IsItem(env, Block(code))
    ensures Run(env, s.(inputs := ["<%" + (code + ("%>" + k))] + outer), n) ==
            AfterBlock(AfterCode(InBlock(s), code, [k] + outer, out, atBol)).(mode := InText)
    ensures Render(out) == UnixCode(code)
  {
    hide Step, Run, FindMatch, Occurs, Render, UnixCode, LineEnding, HasBreak, AfterBlock;
    var t := code + ("%>" + k);
    OpenCodeMatch(s.atBol, code, k);
    StepOpen(env, s, "<%", t, outer, OpenCode);
    var s1 := InBlock(s);
    var n1;
    n1, out, atBol := CodeRun(env, s1, code, k, outer);
    var s2 := AfterCode(s1, code, ["%>" + k] + outer, out, atBol);
    StepClose(env, s2, k, outer);
    assert s2.(inputs := [k] + outer) == AfterCode(s1, code, [k] + outer, out, atBol);
    n := (n1 + 1) + 1;
    StepThen(env, s.(inputs := ["<%" + t] + outer), n1 + 1);
    RunAdd(env, s1.(inputs := [t] + outer), n1, 1);
    RunOne(env, s2);
  }

  lemma {:induction false} BlockRun(env: Env, s: Scanner, code: string, k: string, outer: seq<string>)
      returns (n: nat, s': Scanner, out: seq<Piece>)
    requires s.mode.InText? && !s.done && !s.isEcho && IsItem(env, Block(code))
    ensures Run(env, s.(inputs := ["<%" + (code + ("%>" + k))] + outer), n) == s'.(inputs := [k] + outer)
    ensures IsBetween(s', false) && s'.failed == s.failed
    ensures s'.pycode ==
            s.pycode + ([CloseWrite, Chars(";")] + out + BlockEnd(code, LineEnding(code, Ending("", s.afterColon))))
    ensures Render(out) == UnixCode(code)
  {
    hide Step, Run, FindMatch, Occurs, Render, UnixCode, LineEnding, HasBreak, BlockEnd, AfterBlock, IsItem;
    var atBol;
    n, out, atBol := BlockSteps(env, s, code, k, outer);
    var s2 := AfterCode(InBlock(s), code, [k] + outer, out, atBol);
    AfterBlockIs(s2, code);
    s' := AfterBlock(s2).(mode := InText);
    BlockPieces(s.pycode, out, BlockEnd(code, Ending(s2.whitespace, s2.afterColon)));
  }

  lemma BlockPieces(before: seq<Piece>, out: seq<Piece>, end: seq<Piece>)
    ensures before + [CloseWrite] + [Chars(";")] + out + end == before + ([CloseWrite, Chars(";")] + out + end)
  {
  }

  lemma CommentTokenIs(atBol: bool, note: string, k: string)
    requires !Occurs("--%>", note)
    ensures FindMatch(InComment, atBol, note + ("--%>" + k)) ==
            if note == "" then Match(CloseComment, 4) else Match(Echo, 1)
  {
    NotHere("--%>", note);
    hide Occurs, IncludeLen;
    var u := note + ("--%>" + k);
    var c := "--%>" + k;
    assert c[0] == '-' && c[1] == '-' && c[2] == '%' && c[3] == '>';
    assert forall i :: 0 <= i < 4 ==> u[i] == if i < |note| then note[i] else c[i - |note|];
    if |note| == 0 {
    } else if |note| == 1 {
      assert u[2] == '-';
    } else if |note| == 2 {
      assert u[2] == '-';
    } else if |note| == 3 {
      assert u[3] == '-';
    } else {
    }
  }

  lemma {:induction false} RemarkRun(env: Env, s: Scanner, note: string, k: string, outer: seq<string>) returns (n: nat)
    requires s.mode.InComment? && !s.done && !Occurs("--%>", note)
    ensures Run(env, s.(inputs := [note + ("--%>" + k)] + outer), n) == s.(inputs := [k] + outer, mode := InText)
    decreases |note|
  {
    hide Step, FindMatch, Occurs;
    var u := note + ("--%>" + k);
    CommentTokenIs(s.atBol, note, k);
    StepComment(env, s, u, outer, FindMatch(InComment, s.atBol, u));
    if note == "" {
      n := 1;
      assert u == "--%>" + k && u[4..] == k;
      var s0 := s.(inputs := [u] + outer);
      assert Run(env, s0, 1) == Run(env, Step(env, s0), 0);
    } else {
      assert u[1..] == note[1..] + ("--%>" + k);
      NoTail("--%>", note);
      var n1 := RemarkRun(env, s, note[1..], k, outer);
      n := n1 + 1;
    }
  }

  lemma NoTail(p: string, s: string)
    requires s != "" && !Occurs(p, s)
    ensures !Occurs(p, s[1..])
  {
    if Occurs(p, s[1..]) {
      OccursAfter(p, s, 1);
    }
  }

  lemma StepComment(env: Env, s: Scanner, u: string, outer: seq<string>, m: Match)
    requires s.mode.InComment? && !s.done && u != "" && FindMatch(InComment, s.atBol, u) == m
    requires m.rule == CloseComment || m.rule == Echo
    ensures m.len <= |u|
    ensures Step(env, s.(inputs := [u] + outer)) ==
            s.(inputs := [u[m.len..]] + outer, mode := if m.rule == CloseComment then InText else InComment)
  {
    hide FindMatch, ActText, ActCode, ActInclude;
    var s0 := s.(inputs := [u] + outer);
    assert s0.inputs[0 := u[m.len..]] == [u[m.len..]] + outer;
  }

  lemma RenderTwo(p: Piece, q: Piece)
    ensures Render([p, q]) == PieceText(p) + PieceText(q)
  {
    RenderConcat([p], [q]);
    RenderOne(p);
    RenderOne(q);
    assert [p] + [q] == [p, q];
  }

  lemma ExprText(out: seq<Piece>)
    ensures Render([CloseWrite, OpenStr] + out + [CloseStr, OpenWrite]) ==
            "\"\"\",0)" + ("; req.write(str(" + (Render(out) + ("),0); " + "req.write(\"\"\"")))
  {
    hide Render;
    RenderConcat([CloseWrite, OpenStr] + out, [CloseStr, OpenWrite]);
    RenderConcat([CloseWrite, OpenStr], out);
    RenderTwo(CloseWrite, OpenStr);
    RenderTwo(CloseStr, OpenWrite);
    Regroup("\"\"\",0)", "; req.write(str(", Render(out), "),0); " + "req.write(\"\"\"");
  }

  lemma Regroup(a: string, b: string, c: string, d: string)
    ensures ((a + b) + c) + d == a + (b + (c + d))
  {
  }

  lemma BlockText(code: string, e: Ending, out: seq<Piece>)
    ensures Render([CloseWrite, Chars(";")] + out + BlockEnd(code, e)) ==
            "\"\"\",0)" + (";" + (Render(out) +
            (((if HasBreak(code) then "" else ";") + (e.indent + if e.colon then "\t" else "")) + "req.write(\"\"\"")))
  {
    hide Render, HasBreak;
    var w := e.indent + if e.colon then "\t" else "";
    RenderConcat([CloseWrite, Chars(";")] + out, BlockEnd(code, e));
    RenderConcat([CloseWrite, Chars(";")], out);
    RenderTwo(CloseWrite, Chars(";"));
    RenderTwo(Chars(w), OpenWrite);
    var end := [Chars(w), OpenWrite];
    if HasBreak(code) {
      assert [] + end == end;
      assert "" + w == w;
    } else {
      RenderConcat([Chars(";")], end);
      RenderOne(Chars(";"));
      AppendAssoc(";", w, "req.write(\"\"\"");
    }
    Regroup("\"\"\",0)", ";", Render(out), Render(BlockEnd(code, e)));
  }

  lemma PrintAssoc(i: Item, k: string)
    ensures PrintItem(i) + k ==
            match i
            case Literal(text) => text + k
            case Expr(code) => "<%=" + (code + ("%>" + k))
            case Block(code) => "<%" + (code + ("%>" + k))
            case Remark(note) => "<%--" + (note + ("--%>" + k))
            case Included(d, _) => PrintDirective(d) + k
            case Skipped(text) => "<%@" + (text + ("%>" + k))
  {
    match i
    case Literal(text) =>
    case Expr(code) => Regroup2("<%=", code, "%>", k);
    case Block(code) => Regroup2("<%", code, "%>", k);
    case Remark(note) => Regroup2("<%--", note, "--%>", k);
    case Included(d, _) =>
    case Skipped(text) => Regroup2("<%@", text, "%>", k);
  }

  lemma Regroup2(a: string, b: string, c: string, d: string)
    ensures (a + (b + c)) + d == a + (b + (c + d))
  {
  }

  /** A directive that is skipped. */
  lemma SkippedRun(env: Env, s: Scanner, text: string, k: string, outer: seq<string>)
    requires s.mode.InText? && !s.done && IsSkipped(text)
    ensures Run(env, s.(inputs := ["<%@" + (text + ("%>" + k))] + outer), 2 + |text|) == s.(inputs := [k] + outer)
  {
    hide Step, Run, Skips, IsSkipped;
    var dir := s.(mode := InDir);
    var s0 := s.(inputs := ["<%@" + (text + ("%>" + k))] + outer);
    StepOpenDir(env, s, text + ("%>" + k), outer);
    forall i | 0 <= i < |text|
      ensures Skips(text[i..] + ("%>" + k))
    {
      TrailIsSkipped(text, i, k);
    }
    SkipRun(env, dir, text, "%>" + k, outer);
    StepCloseDir(env, dir, k, outer);
    RunAdd(env, s0, 1, |text|);
    RunAdd(env, s0, 1 + |text|, 1);
    RunOne(env, s0);
    RunOne(env, dir.(inputs := ["%>" + k] + outer));
  }

  /** The state `s` comes to `s'`, before `k`, and has written the code of `i`. */
  ghost predicate WritesItem(env: Env, s: Scanner, i: Item, colon: bool, k: string, outer: seq<string>,
                             n: nat, s': Scanner, out: seq<Piece>) {
    && Run(env, s.(inputs := [PrintItem(i) + k] + outer), n) == s'.(inputs := [k] + outer)
    && IsBetween(s', Compiled(i, colon).1) && s'.failed == s.failed
    && s'.pycode == s.pycode + out && Render(out) == Compiled(i, colon).0
  }

  lemma {:induction false} PlainItemRun(env: Env, s: Scanner, i: Item, colon: bool, k: string, outer: seq<string>)
      returns (n: nat, s': Scanner, out: seq<Piece>)
    requires IsBetween(s, colon) && IsItem(env, i) && (i.Literal? ==> TextEnds(k)) && !i.Included?
    ensures WritesItem(env, s, i, colon, k, outer, n, s', out)
  {
    hide Step, FindMatch, Occurs, Render, UnixCode, LineEnding, HasBreak, BlockEnd, Escape, TextEnds, IsSkipped;
    PrintAssoc(i, k);
    match i
    case Literal(text) =>
      n, out := TextRun(env, s, text, k, outer);
      s' := s.(pycode := s.pycode + out);
    case Expr(code) =>
      var code';
      n, s', code' := ExprRun(env, s, code, k, outer);
      out := [CloseWrite, OpenStr] + code' + [CloseStr, OpenWrite];
      ExprText(code');
    case Block(code) =>
      var code';
      n, s', code' := BlockRun(env, s, code, k, outer);
      var e := LineEnding(code, Ending("", colon));
      out := [CloseWrite, Chars(";")] + code' + BlockEnd(code, e);
      BlockText(code, e, code');
    case Remark(note) =>
      OpenCommentMatch(s.atBol, note + ("--%>" + k));
      StepOpen(env, s, "<%--", note + ("--%>" + k), outer, OpenComment);
      var n1 := RemarkRun(env, s.(mode := InComment), note, k, outer);
      n, s', out := n1 + 1, s, [];
      assert s.pycode + [] == s.pycode;
      NoCode();
    case Skipped(text) =>
      SkippedRun(env, s, text, k, outer);
      n, s', out := 2 + |text|, s, [];
      assert s.pycode + [] == s.pycode;
      NoCode();
  }

  /** A directive whose file's items are written. */
  lemma IncludedWrites(env: Env, s: Scanner, i: Item, colon: bool, k: string, outer: seq<string>, n: nat,
                       s': Scanner, out: seq<Piece>)
    requires s.mode.InText? && !s.done && i.Included? && IsItem(env, i) && !QuoteAhead(After(i.d, k))
    requires var below := [After(i.d, k)] + outer;
             Run(env, s.(inputs := [Print(i.contents)] + below), n) == s'.(inputs := [""] + below)
    requires IsBetween(s', CompiledAll(i.contents, colon).1) && s'.failed == s.failed
    requires s'.pycode == s.pycode + out && Render(out) == CompiledAll(i.contents, colon).0
    ensures WritesItem(env, s, i, colon, k, outer, n + TurnsOf(i.d), s', out)
  {
    hide Step, Run, Print, PrintItem, PrintDirective, After, QuoteAhead, IsDirective, IsItem, PathOf, Render,
         Compiled, CompiledAll, AreItems, IsBetween;
    var d := i.d;
    IncludedIs(env, i);
    IncludedCode(i, colon);
    BetweenIs(s', CompiledAll(i.contents, colon).1);
    var s0 := s.(inputs := [PrintDirective(d) + k] + outer);
    OpenInclude(env, s, d, k, outer);
    CloseInclude(env, s', d, k, outer);
    RunAdd(env, s0, 2 + |d.lead|, n);
    RunAdd(env, s0, 2 + |d.lead| + n, 2 + |d.trail|);
  }

  lemma IncludedCode(i: Item, colon: bool)
    requires i.Included?
    ensures PrintItem(i) == PrintDirective(i.d) && Compiled(i, colon) == CompiledAll(i.contents, colon)
  {
    hide PrintDirective;
  }

  lemma IncludedIs(env: Env, i: Item)
    requires i.Included? && IsItem(env, i)
    ensures IsDirective(i.d) && PathOf(env, i.d.file) in env.files
    ensures env.files[PathOf(env, i.d.file)] == Print(i.contents) && AreItems(env, i.contents)
  {
    hide PathOf, IsDirective;
  }

  lemma BetweenIs(s: Scanner, colon: bool)
    requires IsBetween(s, colon)
    ensures s.mode.InText? && !s.done
  {
  }

  /** The scanner goes over one item and writes what it compiles to. */
  lemma {:induction false} ItemRun(env: Env, s: Scanner, i: Item, colon: bool, k: string, outer: seq<string>)
      returns (n: nat, s': Scanner, out: seq<Piece>)
    requires IsBetween(s, colon) && IsItem(env, i) && (i.Literal? ==> TextEnds(k))
    requires i.Included? ==> !QuoteAhead(After(i.d, k))
    ensures WritesItem(env, s, i, colon, k, outer, n, s', out)
    decreases i, 1
  {
    hide WritesItem, IsItem, TextEnds, IsBetween, QuoteAhead, After;
    if i.Included? {
      n, s', out := IncludedRun(env, s, i, colon, k, outer);
    } else {
      n, s', out := PlainItemRun(env, s, i, colon, k, outer);
    }
  }

  lemma {:induction false} IncludedRun(env: Env, s: Scanner, i: Item, colon: bool, k: string, outer: seq<string>)
      returns (n: nat, s': Scanner, out: seq<Piece>)
    requires IsBetween(s, colon) && i.Included? && IsItem(env, i) && !QuoteAhead(After(i.d, k))
    ensures WritesItem(env, s, i, colon, k, outer, n, s', out)
    decreases i, 0
  {
    hide WritesItem, IsItem, IsBetween, QuoteAhead, After, Run, Print, CompiledAll, AreItems, TurnsOf, Render, PathOf,
         IsDirective;
    BetweenIs(s, colon);
    IncludedIs(env, i);
    var m;
    m, s', out := ItemsRun(env, s, i.contents, colon, [After(i.d, k)] + outer);
    n := m + TurnsOf(i.d);
    IncludedWrites(env, s, i, colon, k, outer, m, s', out);
  }

  lemma PrintStarts(items: seq<Item>)
    requires items != [] ==> !items[0].Literal?
    ensures TextEnds(Print(items))
  {
    if items != [] {
      var i := items[0];
      assert PrintItem(i)[0] == '<';
    }
  }

  lemma {:induction false} ItemsRun(env: Env, s: Scanner, items: seq<Item>, colon: bool, outer: seq<string>)
      returns (n: nat, s': Scanner, out: seq<Piece>)
    requires IsBetween(s, colon) && AreItems(env, items)
    ensures Run(env, s.(inputs := [Print(items)] + outer), n) == s'.(inputs := [""] + outer)
    ensures IsBetween(s', CompiledAll(items, colon).1) && s'.failed == s.failed
    ensures s'.pycode == s.pycode + out && Render(out) == CompiledAll(items, colon).0
    decreases items
  {
    hide Step, PrintItem, Compiled, IsItem, TextEnds, Render, After, QuoteAhead;
    if items == [] {
      n, s', out := 0, s, [];
      assert s.pycode + [] == s.pycode;
      NoCode();
    } else {
      PrintStartsIf(env, items);
      var n1, s1, out1 := ItemRun(env, s, items[0], colon, Print(items[1..]), outer);
      var n2, out2;
      n2, s', out2 := ItemsRun(env, s1, items[1..], Compiled(items[0], colon).1, outer);
      n, out := n1 + n2, out1 + out2;
      RunAdd(env, s.(inputs := [Print(items)] + outer), n1, n2);
      RenderConcat(out1, out2);
      assert s.pycode + out1 + out2 == s.pycode + out;
    }
  }

  lemma PrintStartsIf(env: Env, items: seq<Item>)
    requires AreItems(env, items) && items != []
    ensures items[0].Literal? ==> TextEnds(Print(items[1..]))
    ensures items[0].Included? ==> !QuoteAhead(After(items[0].d, Print(items[1..])))
    ensures AreItems(env, items[1..]) && IsItem(env, items[0])
  {
    hide IsItem, Print, TextEnds, QuoteAhead, After;
    if items[0].Literal? {
      PrintStarts(items[1..]);
    }
  }

  /** A template that prints items is compiled to their program: the code of each literal, the
      expressions and blocks as they stand but for line ends, each block followed by its
      indentation, the programs of included files in their places, and nothing of the comments and
      other directives. */
  lemma TemplateIsCompiled(env: Env, items: seq<Item>) returns (n: nat)
    requires AreItems(env, items) && Print(items) != ""
    ensures Run(env, Start(Print(items)), n).done && !Run(env, Start(Print(items)), n).failed
    ensures Render(Run(env, Start(Print(items)), n).pycode) == Program(items)
  {
    hide Step, Render, Print, CompiledAll, AreItems;
    var t := Print(items);
    StepBegin(env, t);
    var s0 := Start(t).(mode := InText, pycode := [OpenWrite]);
    assert [t] + [] == [t] && [""] + [] == [""];
    var n1, s1, out := ItemsRun(env, s0, items, false, []);
    StepAtEnd(env, s1.(inputs := [""]));
    n := 1 + (n1 + 1);
    RunAdd(env, s0, n1, 1);
    assert Run(env, s1.(inputs := [""]), 1) == Run(env, Step(env, s1.(inputs := [""])), 0);
    ProgramText(out);
  }

  /** The items with those of each included file in its place. */
  function Inlined(items: seq<Item>): seq<Item>
    decreases items
  {
    if items == [] then []
    else
      var i := items[0];
      (if i.Included? then Inlined(i.contents) else [i]) + Inlined(items[1..])
  }

  lemma {:induction false} CompiledConcat(a: seq<Item>, b: seq<Item>, colon: bool)
    ensures var (c, d) := (CompiledAll(a, colon), CompiledAll(b, CompiledAll(a, colon).1));
            CompiledAll(a + b, colon) == (c.0 + d.0, d.1)
    decreases |a|
  {
    hide Compiled;
    if a == [] {
      assert a + b == b;
      assert "" + CompiledAll(b, colon).0 == CompiledAll(b, colon).0;
    } else {
      var first := Compiled(a[0], colon);
      assert (a + b)[1..] == a[1..] + b && (a + b)[0] == a[0];
      CompiledConcat(a[1..], b, first.1);
      AppendAssoc(first.0, CompiledAll(a[1..], first.1).0, CompiledAll(b, CompiledAll(a, colon).1).0);
    }
  }

  lemma {:induction false} InlinedIsCompiledAlike(items: seq<Item>, colon: bool)
    ensures CompiledAll(Inlined(items), colon) == CompiledAll(items, colon)
    decreases items
  {
    if items != [] {
      var i := items[0];
      var c := Compiled(i, colon).1;
      InlinedIsCompiledAlike(items[1..], c);
      if i.Included? {
        InlinedIsCompiledAlike(i.contents, colon);
        CompiledConcat(Inlined(i.contents), Inlined(items[1..]), colon);
      } else {
        CompiledConcat([i], Inlined(items[1..]), colon);
        CompiledOne(i, colon);
      }
      hide Compiled;
    }
  }

  lemma CompiledOne(i: Item, colon: bool)
    ensures CompiledAll([i], colon) == Compiled(i, colon)
  {
    hide Compiled;
    var c := Compiled(i, colon);
    assert [i][1..] == [] && CompiledAll([], c.1) == ("", c.1);
    assert c.0 + "" == c.0;
    assert CompiledAll([i], colon) == (c.0 + "", c.1);
  }

  /** A template that includes files has the program of the template with their items in the places
      of the directives. */
  lemma IncludesAreInlined(items: seq<Item>)
    ensures Program(items) == Program(Inlined(items))
  {
    InlinedIsCompiledAlike(items, false);
  }

  lemma ProgramText(out: seq<Piece>)
    ensures Render([OpenWrite] + out + [CloseWrite] + [Chars("\n")]) ==
            "req.write(\"\"\"" + (Render(out) + ("\"\"\",0)" + "\n"))
  {
    hide Render;
    RenderConcat([OpenWrite] + out + [CloseWrite], [Chars("\n")]);
    RenderConcat([OpenWrite] + out, [CloseWrite]);
    RenderConcat([OpenWrite], out);
    RenderOne(OpenWrite);
    RenderOne(CloseWrite);
    RenderOne(Chars("\n"));
    AppendAssoc("req.write(\"\"\"" + Render(out), "\"\"\",0)", "\n");
    AppendAssoc("req.write(\"\"\"", Render(out), "\"\"\",0)" + "\n");
  }

  /** The text after a block is indented as the block's last line, which is not the line that the
      tag is in, and one tab more exactly if the line ends in a colon. */
  lemma {:induction false} EndingIsLastLines(a: string, b: string, e: Ending)
    requires b != "" && !HasBreak(b)
    ensures var r := LineEnding(a + "\n" + b, e);
            && r.indent == b[..CountBlanks(b)]
            && (CountBlanks(b) < |b| ==> r.colon == (b[|b| - 1] == ':'))
    decreases |a|, 0
  {
    hide HasBreak;
    var code := a + "\n" + b;
    if a == "" {
      assert code[0] == LF && code[1..] == b;
      LastLine(b, e);
      hide BreakEnding;
    } else if a == "\r" {
      assert "\r\n" <= code && code[2..] == b;
      LastLine(b, e);
      hide BreakEnding;
    } else {
      hide BreakEnding;
      assert code[0] == a[0] && code[1] == (a + "\n")[1];
      if "\r\n" <= code {
        assert code[2..] == a[2..] + "\n" + b;
        BreakBeforeLast(a[2..], b, true, e);
      } else {
        assert code[1..] == a[1..] + "\n" + b;
        if IsBreak(code[0]) {
          BreakBeforeLast(a[1..], b, code[0] == LF, e);
        } else {
          EndingIsLastLines(a[1..], b, e.(colon := code[0] == ':'));
        }
      }
    }
  }

  lemma {:induction false} BreakBeforeLast(a: string, b: string, newline: bool, e: Ending)
    requires b != "" && !HasBreak(b)
    ensures var r := BreakEnding(a + "\n" + b, newline, e);
            && r.indent == b[..CountBlanks(b)]
            && (CountBlanks(b) < |b| ==> r.colon == (b[|b| - 1] == ':'))
    decreases |a|, 1
  {
    hide HasBreak, LineEnding;
    var code := a + "\n" + b;
    var i := CountBlanks(code);
    assert code[|a|] == LF;
    if newline && IsBlankChar(code[0]) {
      assert i <= |a| && code[i..] == a[i..] + "\n" + b;
      EndingIsLastLines(a[i..], b, e.(indent := code[..i]));
    } else {
      EndingIsLastLines(a, b, e.(indent := ""));
    }
  }

  lemma LastLine(b: string, e: Ending)
    requires b != "" && !HasBreak(b)
    ensures var r := BreakEnding(b, true, e);
            && r.indent == b[..CountBlanks(b)]
            && (CountBlanks(b) < |b| ==> r.colon == (b[|b| - 1] == ':'))
  {
    var i := CountBlanks(b);
    BreakTail(b, 0);
    assert forall j :: 0 <= j < |b| ==> !IsBreak(b[j]);
    if IsBlankChar(b[0]) {
      OneLine(b[i..], e.(indent := b[..i]));
    } else {
      assert b[..0] == "";
      OneLine(b, e.(indent := ""));
    }
  }

  /** Code without line ends keeps the indentation. */
  lemma {:induction false} OneLine(b: string, e: Ending)
    requires !HasBreak(b)
    ensures LineEnding(b, e) == Ending(e.indent, if b == "" then e.colon else b[|b| - 1] == ':')
  {
    if b != "" {
      assert !IsBreak(b[0]);
      BreakTail(b, 1);
      OneLine(b[1..], e.(colon := b[0] == ':'));
    }
  }
}
