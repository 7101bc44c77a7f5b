/** What holds in every state of every run of the scanner. */
module PspRuns {
  import opened PspScanner

  /** Whether a literal is open after the given code; nothing if one is opened twice or closed
      without having been opened. */
  function Brackets(code: seq<Piece>): Bracketing {
    if code == [] then Is(false)
    else match (Brackets(code[..|code| - 1]), code[|code| - 1])
      case (Broken, _) => Broken
      case (Is(open), OpenWrite) => if open then Broken else Is(true)
      case (Is(open), CloseWrite) => if open then Is(false) else Broken
      case (Is(open), _) => Is(open)
  }

  datatype Bracketing = Broken | Is(open: bool)

  predicate LiteralMode(mode: Mode) {
    mode.InText? || mode.InDir? || mode.InComment?
  }

  /** Blanks only, as the indentation noted is. */
  predicate AllBlank(s: string) {
    forall i :: 0 <= i < |s| ==> IsBlankChar(s[i])
  }

  /** A literal is open exactly in the start conditions for text, directives and comments, until
      the whole template is scanned, and the echo flag is set only in code. */
  ghost predicate Ok(s: Scanner) {
    && Brackets(s.pycode) == Is(LiteralMode(s.mode) && s.inputs != [])
    && (s.isEcho ==> s.mode.InCode? || s.mode.InIndent?)
    && AllBlank(s.whitespace)
    && (s.inputs == [] ==> s.done)
  }

  lemma BracketsEmit(s: Scanner, p: Piece)
    ensures Brackets(Emit(s, p).pycode) ==
            match Brackets(s.pycode)
            case Broken => Broken
            case Is(open) =>
              match p
              case OpenWrite => if open then Broken else Is(true)
              case CloseWrite => if open then Is(false) else Broken
              case _ => Is(open)
  {
    assert Emit(s, p).pycode[..|s.pycode|] == s.pycode;
  }

  lemma AfterBlockOk(s: Scanner)
    requires Brackets(s.pycode) == Is(false) && AllBlank(s.whitespace)
    ensures Brackets(AfterBlock(s).pycode) == Is(true)
    ensures AllBlank(AfterBlock(s).whitespace) && !AfterBlock(s).isEcho
  {
    hide Brackets;
    if s.isEcho {
      BracketsEmit(s, CloseStr);
      BracketsEmit(Emit(s, CloseStr), OpenWrite);
    } else {
      BracketsEmit(s, Chars(";"));
      var s1 := if s.seenNewline then s else Emit(s, Chars(";"));
      var s2 := if s.afterColon then s1.(whitespace := s1.whitespace + "\t", afterColon := false) else s1;
      BracketsEmit(s2, Chars(s2.whitespace));
      BracketsEmit(Emit(s2, Chars(s2.whitespace)), OpenWrite);
    }
  }

  lemma TextStepOk(s: Scanner, rule: Rule, tok: string)
    requires Ok(s) && s.mode.InText? && s.inputs != [] && IsTextRule(rule)
    ensures Ok(ActText(s, rule, tok))
  {
    hide Brackets, TextCode;
    if rule == OpenExpr {
      BracketsEmit(s, CloseWrite);
      BracketsEmit(Emit(s, CloseWrite), OpenStr);
    } else if rule == OpenCode {
      BracketsEmit(s, CloseWrite);
      BracketsEmit(Emit(s, CloseWrite), Chars(";"));
    } else if rule == OpenDir {
    } else if rule == OpenComment {
    } else {
      BracketsEmit(s, Chars(TextCode(rule, tok)));
    }
  }

  lemma TokenStepOk(s: Scanner, rule: Rule, tok: string)
    requires Ok(s) && (s.mode.InCode? || s.mode.InIndent?) && s.inputs != []
    requires IsCodeRule(rule) && !PushesBack(rule) && (rule == Blanks ==> AllBlank(tok))
    ensures Ok(ActToken(s, rule, tok))
  {
    hide Brackets, AfterBlock;
    if rule == CloseCode {
      AfterBlockOk(s);
      AfterBlockKeeps(s);
    } else if rule == CodeEol {
      BracketsEmit(s, Chars("\n"));
    } else if rule == Blanks {
      BracketsEmit(s, Chars(tok));
    } else {
      BracketsEmit(s, Chars(tok));
    }
  }

  lemma CodeStepOk(s: Scanner, rule: Rule, tok: string)
    requires Ok(s) && (s.mode.InCode? || s.mode.InIndent?) && s.inputs != [] && IsCodeRule(rule)
    requires tok <= s.inputs[0] && (rule == Blanks ==> AllBlank(tok))
    ensures Ok(ActCode(s, rule, tok))
  {
    hide Brackets, ActToken;
    if !PushesBack(rule) {
      TokenStepOk(Consume(s, |tok|), rule, tok);
    }
  }

  lemma AfterBlockKeeps(s: Scanner)
    ensures AfterBlock(s).inputs == s.inputs && AfterBlock(s).done == s.done && AfterBlock(s).mode == s.mode
  {
  }

  /** The rules that a start condition has. */
  lemma RuleOfMode(mode: Mode, atBol: bool, t: string)
    requires t != ""
    ensures var rule := FindMatch(mode, atBol, t).rule;
            match mode
            case InInitial => rule == Begin
            case InText => IsTextRule(rule)
            case InCode => IsCodeRule(rule) && rule != Blanks
            case InIndent => IsCodeRule(rule)
            case InDir => rule == Include || rule == CloseDir || rule == Echo
            case InComment => rule == CloseComment || rule == Echo
    ensures FindMatch(mode, atBol, t).rule == Blanks ==> AllBlank(t[..FindMatch(mode, atBol, t).len])
  {
    hide IncludeLen;
  }

  lemma EndOk(s: Scanner)
    requires Ok(s) && s.inputs != []
    ensures Ok(AtEnd(s))
  {
    hide Brackets, AllBlank;
    if !s.mode.InText? {
    } else if |s.inputs| > 1 {
    } else {
      BracketsEmit(s, CloseWrite);
      BracketsEmit(Emit(s, CloseWrite), Chars("\n"));
    }
  }

  lemma BeginOk(env: Env, s: Scanner)
    requires Ok(s) && s.mode.InInitial? && s.inputs != []
    ensures Ok(Act(env, s, Begin, ""))
  {
    hide Brackets, ActText, ActCode, ActInclude;
    BracketsEmit(s, OpenWrite);
  }

  lemma IncludeOk(env: Env, s: Scanner, tok: string)
    requires Ok(s) && s.mode.InDir? && s.inputs != []
    ensures Ok(ActInclude(env, s, tok))
  {
    hide Brackets, AllBlank, PathOf, FileNameOf;
  }

  /** The rules of directives and comments write nothing. */
  lemma SilentOk(env: Env, s: Scanner, rule: Rule, tok: string)
    requires Ok(s) && (s.mode.InDir? || s.mode.InComment?) && s.inputs != [] && tok <= s.inputs[0]
    requires rule == CloseDir || rule == CloseComment || rule == Echo || (rule == Include && s.mode.InDir?)
    ensures Ok(Act(env, s, rule, tok))
  {
    hide Brackets, ActText, ActCode, ActInclude, AllBlank;
    assert Ok(Consume(s, |tok|));
    if rule == Include {
      IncludeOk(env, Consume(s, |tok|), tok);
      hide Ok;
    } else if rule == Echo {
    } else {
    }
  }

  lemma TextActOk(env: Env, s: Scanner, rule: Rule, tok: string)
    requires Ok(s) && s.mode.InText? && s.inputs != [] && tok <= s.inputs[0] && IsTextRule(rule)
    ensures Ok(Act(env, s, rule, tok))
  {
    TextStepOk(Consume(s, |tok|), rule, tok);
    hide Ok, ActText, ActCode, ActInclude;
  }

  lemma CodeActOk(env: Env, s: Scanner, rule: Rule, tok: string)
    requires Ok(s) && (s.mode.InCode? || s.mode.InIndent?) && s.inputs != [] && IsCodeRule(rule)
    requires tok <= s.inputs[0] && (rule == Blanks ==> AllBlank(tok))
    ensures Ok(Act(env, s, rule, tok))
  {
    hide Ok, ActText, ActCode, ActInclude;
    CodeStepOk(s, rule, tok);
  }

  lemma StepOk(env: Env, s: Scanner)
    requires Ok(s)
    ensures Ok(Step(env, s))
  {
    hide Ok, Act, FindMatch, AtEnd;
    if s.done || s.inputs == [] {
    } else if s.inputs[0] == "" {
      EndOk(s);
    } else {
      var m := FindMatch(s.mode, s.atBol, s.inputs[0]);
      var tok := s.inputs[0][..m.len];
      RuleOfMode(s.mode, s.atBol, s.inputs[0]);
      match s.mode
      case InInitial =>
        BeginOk(env, s);
        BeginIgnoresToken(env, s, tok);
      case InText => TextActOk(env, s, m.rule, tok);
      case InCode => CodeActOk(env, s, m.rule, tok);
      case InIndent => CodeActOk(env, s, m.rule, tok);
      case InDir => SilentOk(env, s, m.rule, tok);
      case InComment => SilentOk(env, s, m.rule, tok);
    }
  }

  lemma BeginIgnoresToken(env: Env, s: Scanner, tok: string)
    requires s.inputs != [] && tok <= s.inputs[0]
    ensures Act(env, s, Begin, tok) == Act(env, s, Begin, "")
  {
    hide ActText, ActCode, ActInclude;
  }

  lemma {:induction false} RunOk(env: Env, s: Scanner, n: nat)
    requires Ok(s)
    ensures Ok(Run(env, s, n))
    decreases n
  {
    hide Ok, Step;
    if n > 0 {
      StepOk(env, s);
      RunOk(env, Step(env, s), n - 1);
    }
  }

  /** In every state of every run: the calls that write literals are opened and closed in turn,
      one is open exactly in text, directives and comments, and the echo flag is clear there. */
  lemma LiteralsAreBracketed(env: Env, template: string, n: nat)
    ensures var s := Run(env, Start(template), n);
            && Brackets(s.pycode) == Is(LiteralMode(s.mode) && s.inputs != [])
            && (LiteralMode(s.mode) ==> !s.isEcho)
            && (s.inputs == [] ==> s.done && Brackets(s.pycode) == Is(false))
  {
    assert Ok(Start(template));
    RunOk(env, Start(template), n);
  }
}
