/** The line numbers of the generated code are those of the template. */
module PspLines {
  import opened PspRegions
  import opened PspRuns
  import opened PspScanner
  import opened Text

  /** The number of newlines in generated code. */
  function CodeLines(code: seq<Piece>): nat {
    Newlines(Render(code))
  }

  lemma LinesAppend(code: seq<Piece>, p: Piece)
    ensures CodeLines(code + [p]) == CodeLines(code) + Newlines(PieceText(p))
  {
    RenderConcat(code, [p]);
    assert [p][1..] == [] && Render([p]) == PieceText(p);
    NewlinesConcat(Render(code), PieceText(p));
  }

  /** A carriage return stands only before a newline. */
  predicate NoLoneCR(s: string) {
    forall i :: 0 <= i < |s| && s[i] == CR ==> i + 1 < |s| && s[i + 1] == LF
  }

  /** A template, or what is left of it in a region, without lone carriage returns and includes. */
  predicate Plain(s: string, r: Region) {
    NoLoneCR(s) && IncludesNothing(s, r)
  }

  lemma NoLoneCRSuffix(s: string, k: nat)
    requires NoLoneCR(s) && k <= |s|
    ensures NoLoneCR(s[k..])
  {
    var t := s[k..];
    assert forall i :: 0 <= i < |t| ==> t[i] == s[k + i];
  }

  lemma OneChar(tok: string)
    requires |tok| == 1
    ensures Newlines(tok) == if tok == "\n" then 1 else 0
  {
    assert tok[1..] == "";
    assert tok == [tok[0]];
  }

  lemma LineEnds(tok: string)
    requires tok == "\n" || tok == "\r\n"
    ensures Newlines(tok) == 1
  {
    OneChar("\r");
    OneChar("\n");
    NewlinesConcat("\r", "\n");
  }

  lemma BlankLines(s: string)
    requires AllBlank(s)
    ensures Newlines(s) == 0
  {
    NoNewlines(s);
  }

  lemma AfterBlockLines(s: Scanner)
    requires AllBlank(s.whitespace)
    ensures CodeLines(AfterBlock(s).pycode) == CodeLines(s.pycode)
  {
    hide CodeLines, Newlines;
    if s.isEcho {
      NoNewlines(PieceText(CloseStr));
      NoNewlines(PieceText(OpenWrite));
      LinesAppend(s.pycode, CloseStr);
      LinesAppend(s.pycode + [CloseStr], OpenWrite);
    } else {
      var code := if s.seenNewline then s.pycode else s.pycode + [Chars(";")];
      var ws := if s.afterColon then s.whitespace + "\t" else s.whitespace;
      NoNewlines(";");
      LinesAppend(s.pycode, Chars(";"));
      BlankLines(ws);
      NoNewlines(PieceText(OpenWrite));
      LinesAppend(code, Chars(ws));
      LinesAppend(code + [Chars(ws)], OpenWrite);
      assert AfterBlock(s).pycode == code + [Chars(ws)] + [OpenWrite];
    }
  }

  lemma TextKeepsInputs(s: Scanner, rule: Rule, tok: string)
    requires IsTextRule(rule)
    ensures ActText(s, rule, tok).inputs == s.inputs
  {
    if rule == OpenExpr {
    } else if rule == OpenCode {
    } else if rule == OpenDir {
    } else if rule == OpenComment {
    } else {
    }
  }

  lemma TextActs(s: Scanner, rule: Rule, tok: string)
    requires IsTextRule(rule)
    ensures ActText(s, rule, tok).pycode ==
            if rule == OpenExpr then s.pycode + [CloseWrite] + [OpenStr]
            else if rule == OpenCode then s.pycode + [CloseWrite] + [Chars(";")]
            else if rule == OpenDir || rule == OpenComment then s.pycode
            else s.pycode + [Chars(TextCode(rule, tok))]
  {
    if rule == OpenExpr {
    } else if rule == OpenCode {
    } else if rule == OpenDir {
    } else if rule == OpenComment {
    } else {
    }
  }

  lemma TextCodeLines(rule: Rule, tok: string)
    requires rule == TextEol ==> tok == "\n" || tok == "\r\n"
    requires rule == TextChar ==> |tok| == 1 && tok != "\n"
    requires rule == EscapedN || rule == EscapedR || rule == EscapedT ==> LF !in tok
    requires rule in {EscapedN, EscapedR, EscapedT, TextEol, TextChar}
    ensures Newlines(TextCode(rule, tok)) == Newlines(tok)
  {
    hide Newlines;
    if rule == TextEol {
      LineEnds(tok);
      LineEnds("\n");
    } else if rule == TextChar {
      OneChar(tok);
      NoNewlines("\\\"");
    } else {
      NoNewlines(TextCode(rule, tok));
      NoNewlines(tok);
    }
  }

  lemma TextLines(s: Scanner, rule: Rule, tok: string)
    requires IsTextRule(rule)
    requires rule == TextEol ==> tok == "\n" || tok == "\r\n"
    requires rule == TextChar ==> |tok| == 1 && tok != "\n"
    requires rule != TextEol && rule != TextChar ==> LF !in tok
    ensures CodeLines(ActText(s, rule, tok).pycode) == CodeLines(s.pycode) + Newlines(tok)
  {
    hide CodeLines, Newlines, ActText, TextCode;
    TextActs(s, rule, tok);
    if rule == OpenExpr {
      OpenLines(s.pycode, OpenStr);
      NoNewlines(tok);
    } else if rule == OpenCode {
      OpenLines(s.pycode, Chars(";"));
      NoNewlines(tok);
    } else if rule == OpenDir || rule == OpenComment {
      NoNewlines(tok);
    } else {
      TextCodeLines(rule, tok);
      LinesAppend(s.pycode, Chars(TextCode(rule, tok)));
    }
  }

  lemma OpenLines(code: seq<Piece>, p: Piece)
    requires p == OpenStr || p == Chars(";")
    ensures CodeLines(code + [CloseWrite] + [p]) == CodeLines(code)
  {
    hide CodeLines, Newlines;
    NoNewlines(PieceText(CloseWrite));
    NoNewlines(PieceText(p));
    LinesAppend(code, CloseWrite);
    LinesAppend(code + [CloseWrite], p);
  }

  lemma CodeRuleInputs(s: Scanner, rule: Rule, tok: string)
    requires IsCodeRule(rule) && s.inputs != [] && tok <= s.inputs[0]
    ensures ActCode(s, rule, tok).inputs == s.inputs[0 := s.inputs[0][|Eaten(rule, tok)|..]]
  {
    if PushesBack(rule) {
      hide ActToken;
      assert s.inputs[0][0..] == s.inputs[0];
    } else {
      TokenInputs(Consume(s, |tok|), rule, tok);
      hide ActToken;
    }
  }

  lemma TokenInputs(s: Scanner, rule: Rule, tok: string)
    requires IsCodeRule(rule) && !PushesBack(rule)
    ensures ActToken(s, rule, tok).inputs == s.inputs
  {
    hide AfterBlock;
    if rule == CloseCode {
      AfterBlockKeeps(s);
    } else if rule == CodeEol {
    } else if rule == Blanks {
    } else {
    }
  }

  lemma CodeRuleCode(s: Scanner, rule: Rule, tok: string)
    requires IsCodeRule(rule) && s.inputs != [] && tok <= s.inputs[0]
    ensures ActCode(s, rule, tok).pycode ==
            if rule == CloseCode then AfterBlock(Consume(s, |tok|)).pycode
            else if PushesBack(rule) then s.pycode
            else s.pycode + [Chars(if rule == CodeEol then "\n" else tok)]
  {
    hide AfterBlock;
    if rule == CloseCode {
    } else if rule == CodeEol {
    } else if rule == Blanks {
    } else if rule == Colon || rule == CodeChar {
    } else if rule == IndentClose {
    } else {
    }
  }

  lemma CodeRuleLines(s: Scanner, rule: Rule, tok: string)
    requires IsCodeRule(rule) && s.inputs != [] && tok <= s.inputs[0] && AllBlank(s.whitespace)
    requires rule == CodeEol ==> tok == "\n" || tok == "\r\n"
    requires rule == Blanks ==> AllBlank(tok)
    requires rule == CloseCode ==> tok == "%>"
    requires tok != ""
    ensures CodeLines(ActCode(s, rule, tok).pycode) ==
            CodeLines(s.pycode) + Newlines(Eaten(rule, tok))
  {
    hide CodeLines, Newlines, AfterBlock, ActCode;
    CodeRuleCode(s, rule, tok);
    if rule == CloseCode {
      AfterBlockLines(Consume(s, |tok|));
      NoNewlines(tok);
    } else if Eaten(rule, tok) == "" {
      NoNewlines("");
    } else {
      CodeTextLines(rule, tok);
      LinesAppend(s.pycode, Chars(if rule == CodeEol then "\n" else tok));
    }
  }

  lemma CodeTextLines(rule: Rule, tok: string)
    requires rule == CodeEol ==> tok == "\n" || tok == "\r\n"
    ensures Newlines(if rule == CodeEol then "\n" else tok) == Newlines(tok)
  {
    hide Newlines;
    if rule == CodeEol {
      LineEnds(tok);
      LineEnds("\n");
    }
  }

  predicate IsSuffix(t: string, s: string) {
    |t| <= |s| && s[|s| - |t|..] == t
  }

  /** The line ends of the template are those in the code, those dropped and those ahead. */
  ghost predicate Balanced(s: Scanner, template: string) {
    && |s.inputs| == 1 && Plain(s.inputs[0], RegionOf(s.mode))
    && IsSuffix(s.inputs[0], template)
    && Dropped(s.inputs[0], RegionOf(s.mode)) <= Dropped(template, Outside)
    && CodeLines(s.pycode) + Dropped(template, Outside) + Newlines(s.inputs[0]) ==
       Newlines(template) + Dropped(s.inputs[0], RegionOf(s.mode))
  }

  /** The tokens of text: a line end, a character that is none, or some without any. */
  lemma TextTokens(t: string)
    requires t != "" && NoLoneCR(t)
    ensures var m := FindMatch(InText, false, t);
            var tok := t[..m.len];
            && IsTextRule(m.rule)
            && (m.rule == TextEol ==> tok == "\n" || tok == "\r\n")
            && (m.rule == TextChar ==> |tok| == 1 && tok != "\n")
            && (m.rule != TextEol && m.rule != TextChar ==> LF !in tok)
  {
    var m := FindMatch(InText, false, t);
    assert forall i :: 0 <= i < m.len ==> t[..m.len][i] == t[i];
  }

  lemma CodeTokens(mode: Mode, atBol: bool, t: string)
    requires t != "" && NoLoneCR(t) && (mode.InCode? || mode.InIndent?)
    ensures var m := FindMatch(mode, atBol, t);
            var tok := t[..m.len];
            && IsCodeRule(m.rule)
            && (m.rule == CodeEol ==> tok == "\n" || tok == "\r\n")
            && (m.rule == Blanks ==> AllBlank(tok))
            && (m.rule == CloseCode ==> tok == "%>")
  {
    var m := FindMatch(mode, atBol, t);
    assert forall i :: 0 <= i < m.len ==> t[..m.len][i] == t[i];
  }

  lemma OtherTokens(mode: Mode, atBol: bool, t: string)
    requires t != "" && (mode.InDir? || mode.InComment?) && FindMatch(mode, atBol, t).rule != Include
    ensures var m := FindMatch(mode, atBol, t);
            if m.rule == Echo then m.len == 1
            else (m.rule == CloseDir || m.rule == CloseComment) && LF !in t[..m.len]
  {
    hide IncludeLen;
    var m := FindMatch(mode, atBol, t);
    assert forall i :: 0 <= i < m.len ==> t[..m.len][i] == t[i];
  }

  lemma MatchIgnoresBol(mode: Mode, atBol: bool, t: string)
    requires t != "" && !mode.InIndent?
    ensures FindMatch(mode, atBol, t) == FindMatch(mode, false, t)
  {
  }

  /** The start condition after an action is that of the region after its rule. */
  lemma ActRegion(env: Env, s: Scanner, rule: Rule, tok: string)
    requires s.inputs != [] && tok <= s.inputs[0] && rule != Include
    requires IsTextRule(rule) ==> s.mode.InText?
    requires IsCodeRule(rule) ==> s.mode.InCode? || s.mode.InIndent?
    requires rule == Begin ==> s.mode.InInitial?
    ensures RegionOf(Act(env, s, rule, tok).mode) == RegionAfter(RegionOf(s.mode), rule)
  {
    hide AfterBlock, TextCode, ActInclude;
    if IsTextRule(rule) {
      ActTextRegion(Consume(s, |tok|), rule, tok);
    } else if IsCodeRule(rule) {
      ActCodeRegion(s, rule, tok);
    }
  }

  lemma ActTextRegion(s: Scanner, rule: Rule, tok: string)
    requires IsTextRule(rule) && s.mode.InText?
    ensures RegionOf(ActText(s, rule, tok).mode) == RegionAfter(Outside, rule)
  {
    hide TextCode;
    if rule == OpenExpr {
    } else if rule == OpenCode {
    } else if rule == OpenDir {
    } else if rule == OpenComment {
    } else {
    }
  }

  lemma ActCodeRegion(s: Scanner, rule: Rule, tok: string)
    requires IsCodeRule(rule) && s.inputs != [] && tok <= s.inputs[0] && (s.mode.InCode? || s.mode.InIndent?)
    ensures RegionOf(ActCode(s, rule, tok).mode) == RegionAfter(InBlock, rule)
  {
    hide AfterBlock;
    if rule == CloseCode {
    } else if rule == CodeEol {
    } else if rule == Blanks {
    } else if rule == Colon || rule == CodeChar {
      AfterCharRegion(Consume(s, |tok|), rule, tok);
    } else if rule == IndentClose {
    } else {
    }
  }

  lemma AfterCharRegion(s: Scanner, rule: Rule, tok: string)
    requires rule == Colon || rule == CodeChar
    ensures ActToken(s, rule, tok).mode == s.mode
  {
    hide AfterBlock;
  }

  /** A turn on the token `tok`, of which `eaten` is consumed: the code grows by as many lines as
      that has, but for those dropped. */
  lemma EatenBalanced(s: Scanner, s': Scanner, eaten: string, dropped: nat, template: string)
    requires Balanced(s, template) && eaten <= s.inputs[0]
    requires s'.inputs == s.inputs[0 := s.inputs[0][|eaten|..]]
    requires CodeLines(s'.pycode) + dropped == CodeLines(s.pycode) + Newlines(eaten)
    requires Walks(s.inputs[0], RegionOf(s.mode), dropped, s.inputs[0][|eaten|..], RegionOf(s'.mode))
    ensures Balanced(s', template)
  {
    hide CodeLines, Newlines, Dropped, IncludesNothing, NoLoneCR;
    var t := s.inputs[0];
    assert t == eaten + t[|eaten|..];
    NewlinesConcat(eaten, t[|eaten|..]);
    NoLoneCRSuffix(t, |eaten|);
  }

  /** What an action does to the code and the file. */
  ghost predicate KeepsCount(s: Scanner, s': Scanner, rule: Rule, tok: string)
    requires s.inputs != [] && s.inputs[0] != "" && tok <= s.inputs[0]
  {
    && |Eaten(rule, tok)| <= |tok|
    && s'.inputs == s.inputs[0 := s.inputs[0][|Eaten(rule, tok)|..]]
    && CodeLines(s'.pycode) + (if rule == Echo && s.inputs[0][0] == LF then 1 else 0) ==
       CodeLines(s.pycode) + Newlines(Eaten(rule, tok))
  }

  lemma BeginLines(env: Env, s: Scanner, tok: string)
    requires s.inputs != [] && s.inputs[0] != "" && tok <= s.inputs[0]
    ensures KeepsCount(s, Act(env, s, Begin, tok), Begin, tok)
  {
    hide CodeLines, Newlines, ActText, ActCode, ActInclude;
    NoNewlines(PieceText(OpenWrite));
    NoNewlines("");
    LinesAppend(s.pycode, OpenWrite);
    assert s.inputs[0][0..] == s.inputs[0];
  }

  lemma TextActLines(env: Env, s: Scanner, rule: Rule, tok: string)
    requires |s.inputs| == 1 && s.inputs[0] != "" && NoLoneCR(s.inputs[0]) && s.mode.InText?
    requires Match(rule, |tok|) == FindMatch(s.mode, s.atBol, s.inputs[0]) && tok <= s.inputs[0]
    ensures KeepsCount(s, Act(env, s, rule, tok), rule, tok)
  {
    hide CodeLines, Newlines, ActText, ActCode, ActInclude, FindMatch, NoLoneCR;
    var t := s.inputs[0];
    assert tok == t[..|tok|];
    MatchIgnoresBol(s.mode, s.atBol, t);
    TextTokens(t);
    TextLines(Consume(s, |tok|), rule, tok);
    TextKeepsInputs(Consume(s, |tok|), rule, tok);
  }

  lemma CodeActLines(env: Env, s: Scanner, rule: Rule, tok: string)
    requires |s.inputs| == 1 && s.inputs[0] != "" && NoLoneCR(s.inputs[0]) && AllBlank(s.whitespace)
    requires s.mode.InCode? || s.mode.InIndent?
    requires Match(rule, |tok|) == FindMatch(s.mode, s.atBol, s.inputs[0]) && tok <= s.inputs[0]
    ensures KeepsCount(s, Act(env, s, rule, tok), rule, tok)
  {
    hide CodeLines, Newlines, ActText, ActCode, ActInclude, FindMatch, NoLoneCR;
    assert tok == s.inputs[0][..|tok|];
    CodeTokens(s.mode, s.atBol, s.inputs[0]);
    CodeRuleLines(s, rule, tok);
    CodeRuleInputs(s, rule, tok);
  }

  lemma SilentActLines(env: Env, s: Scanner, rule: Rule, tok: string)
    requires |s.inputs| == 1 && s.inputs[0] != "" && (s.mode.InDir? || s.mode.InComment?) && rule != Include
    requires Match(rule, |tok|) == FindMatch(s.mode, s.atBol, s.inputs[0]) && tok <= s.inputs[0]
    ensures KeepsCount(s, Act(env, s, rule, tok), rule, tok)
  {
    hide CodeLines, Newlines, ActText, ActCode, ActInclude, FindMatch;
    assert tok == s.inputs[0][..|tok|];
    OtherLines(s.mode, s.atBol, s.inputs[0]);
  }

  /** What one turn does to the code and the file. */
  lemma TokenLines(s: Scanner, s': Scanner, rule: Rule, tok: string, env: Env)
    requires Ok(s) && |s.inputs| == 1 && s.inputs[0] != "" && NoLoneCR(s.inputs[0])
    requires Match(rule, |tok|) == FindMatch(s.mode, s.atBol, s.inputs[0]) && tok <= s.inputs[0]
    requires rule != Include && s' == Act(env, s, rule, tok)
    ensures KeepsCount(s, s', rule, tok)
  {
    hide Act, FindMatch, NoLoneCR, Brackets, KeepsCount;
    RuleOfMode(s.mode, s.atBol, s.inputs[0]);
    if s.mode.InInitial? {
      BeginLines(env, s, tok);
    } else if s.mode.InText? {
      TextActLines(env, s, rule, tok);
    } else if s.mode.InCode? || s.mode.InIndent? {
      CodeActLines(env, s, rule, tok);
    } else {
      SilentActLines(env, s, rule, tok);
    }
  }

  lemma OtherLines(mode: Mode, atBol: bool, t: string)
    requires t != "" && (mode.InDir? || mode.InComment?) && FindMatch(mode, atBol, t).rule != Include
    ensures var m := FindMatch(mode, atBol, t);
            && (m.rule == Echo || m.rule == CloseDir || m.rule == CloseComment)
            && Newlines(t[..m.len]) == if m.rule == Echo && t[0] == LF then 1 else 0
  {
    hide FindMatch, Newlines;
    OtherTokens(mode, atBol, t);
    var m := FindMatch(mode, atBol, t);
    if m.rule == Echo {
      OneChar(t[..1]);
    } else {
      NoNewlines(t[..m.len]);
    }
  }

  lemma StepBalanced(env: Env, s: Scanner, template: string)
    requires Ok(s) && !s.done && Balanced(s, template) && s.inputs[0] != ""
    ensures Balanced(Step(env, s), template)
  {
    hide Ok, CodeLines, Newlines, Act, FindMatch, NoLoneCR, Walks, IncludesNothing, Dropped, Eaten;
    var t := s.inputs[0];
    var m := FindMatch(s.mode, s.atBol, t);
    var tok := t[..m.len];
    WalkToken(s.mode, s.atBol, t);
    RuleOfMode(s.mode, s.atBol, t);
    ActRegion(env, s, m.rule, tok);
    TokenLines(s, Step(env, s), m.rule, tok, env);
    EatenIsPrefix(m.rule, tok);
    EatenBalanced(s, Step(env, s), Eaten(m.rule, tok), if m.rule == Echo && t[0] == LF then 1 else 0, template);
  }

  lemma EatenIsPrefix(rule: Rule, tok: string)
    ensures Eaten(rule, tok) <= tok
  {
  }

  /** The last file ends: the scanner stops. */
  lemma EndStops(env: Env, s: Scanner)
    requires |s.inputs| == 1 && s.inputs[0] == ""
    ensures Step(env, s).done
  {
  }

  lemma {:induction false} RunBalanced(env: Env, s: Scanner, n: nat, template: string)
    requires Ok(s) && !Run(env, s, n).done && Balanced(s, template)
    ensures Balanced(Run(env, s, n), template)
    decreases n
  {
    hide Ok, Step, CodeLines, Newlines, Dropped, IncludesNothing, NoLoneCR;
    if n > 0 {
      if s.done {
        RunDone(env, s, n);
      }
      if s.inputs[0] == "" {
        EndStops(env, s);
        RunDone(env, Step(env, s), n - 1);
      }
      StepOk(env, s);
      StepBalanced(env, s, template);
      RunBalanced(env, Step(env, s), n - 1, template);
    }
  }

  lemma StartBalanced(template: string)
    requires Plain(template, Outside)
    ensures Ok(Start(template)) && Balanced(Start(template), template)
  {
    assert CodeLines([]) == 0;
  }

  /** In every state of a run, the generated code is exactly as many lines behind what is consumed
      of the template as there are newlines in the comments and directives consumed. */
  lemma LinesAreDropped(env: Env, template: string, n: nat)
    requires Plain(template, Outside) && !Run(env, Start(template), n).done
    ensures var s := Run(env, Start(template), n);
            && |s.inputs| == 1 && IsSuffix(s.inputs[0], template)
            && Dropped(s.inputs[0], RegionOf(s.mode)) <= Dropped(template, Outside)
            && CodeLines(s.pycode) + (Dropped(template, Outside) - Dropped(s.inputs[0], RegionOf(s.mode))) ==
               Newlines(template) - Newlines(s.inputs[0])
  {
    hide Ok, CodeLines, Newlines, Dropped, IncludesNothing, NoLoneCR;
    StartBalanced(template);
    RunBalanced(env, Start(template), n, template);
  }

  /** The generated code has as many lines as what is consumed of the template. */
  ghost predicate LinesAgree(s: Scanner, template: string) {
    s.inputs != [] && CodeLines(s.pycode) == Newlines(template) - Newlines(s.inputs[0])
  }

  lemma ActGoesOn(env: Env, s: Scanner, rule: Rule, tok: string)
    requires s.inputs != [] && tok <= s.inputs[0] && rule != Include
    ensures Act(env, s, rule, tok).done == s.done
    ensures PushesBack(rule) ==> Act(env, s, rule, tok).mode.InCode?
    ensures rule == Begin ==> Act(env, s, rule, tok).mode.InText?
  {
    hide AfterBlock, TextCode, ActInclude;
    if IsTextRule(rule) {
      hide ActCode;
    } else if IsCodeRule(rule) {
      hide ActText;
      if rule == CloseCode {
        AfterBlockKeeps(Consume(s, |tok|));
      }
    }
  }

  /** What is left to do in a file: the rules that consume nothing lead to a start condition whose
      rules do. */
  function Work(s: Scanner): nat
    requires s.inputs != []
  {
    2 * |s.inputs[0]| + if s.mode.InInitial? || s.mode.InIndent? then 1 else 0
  }

  lemma StepWorks(env: Env, s: Scanner, template: string)
    requires Ok(s) && !s.done && Balanced(s, template) && s.inputs[0] != ""
    ensures Step(env, s).inputs != [] && !Step(env, s).done && Work(Step(env, s)) < Work(s)
  {
    hide Ok, CodeLines, Newlines, Act, FindMatch, NoLoneCR, Walks, IncludesNothing, Dropped;
    var t := s.inputs[0];
    var m := FindMatch(s.mode, s.atBol, t);
    WalkToken(s.mode, s.atBol, t);
    ActGoesOn(env, s, m.rule, t[..m.len]);
    TokenLines(s, Step(env, s), m.rule, t[..m.len], env);
    IndentMatches(s.mode, s.atBol, t);
  }

  lemma IndentMatches(mode: Mode, atBol: bool, t: string)
    requires t != ""
    ensures PushesBack(FindMatch(mode, atBol, t).rule) ==> mode.InIndent?
    ensures FindMatch(mode, atBol, t).rule == Begin ==> mode.InInitial?
  {
    hide IncludeLen;
  }

  lemma {:induction false} ReachesEnd(env: Env, s: Scanner, template: string) returns (n: nat)
    requires Ok(s) && !s.done && Balanced(s, template)
    ensures !Run(env, s, n).done && Run(env, s, n).inputs == [""]
    decreases Work(s)
  {
    hide Ok, Step, CodeLines, Newlines, Dropped, IncludesNothing, NoLoneCR;
    if s.inputs[0] == "" {
      n := 0;
      assert s.inputs == [s.inputs[0]];
    } else {
      StepOk(env, s);
      StepBalanced(env, s, template);
      StepWorks(env, s, template);
      var n1 := ReachesEnd(env, Step(env, s), template);
      n := n1 + 1;
    }
  }

  /** In every state of the run the line numbers agree, if and only if the template has no newline
      in a comment or a directive. */
  lemma LineNumbersAgreeIff(env: Env, template: string)
    requires Plain(template, Outside)
    ensures (forall n: nat :: !Run(env, Start(template), n).done ==> LinesAgree(Run(env, Start(template), n), template))
            <==> Dropped(template, Outside) == 0
  {
    hide Ok, Step, Run, CodeLines, Newlines, IncludesNothing, NoLoneCR;
    forall n: nat | !Run(env, Start(template), n).done
      ensures Dropped(template, Outside) == 0 ==> LinesAgree(Run(env, Start(template), n), template)
    {
      LinesAreDropped(env, template, n);
    }
    StartBalanced(template);
    var n := ReachesEnd(env, Start(template), template);
    LinesAreDropped(env, template, n);
    assert Dropped("", RegionOf(Run(env, Start(template), n).mode)) == 0;
  }
}
