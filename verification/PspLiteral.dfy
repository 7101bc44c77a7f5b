/** What the scanner writes for literal text. */
module PspLiteral {
  import opened PspScanner
  import opened Text

  /** A backslash and a letter that the scanner keeps from being read as an escape. */
  predicate IsProtected(t: string) {
    |t| > 1 && t[0] == '\\' && (t[1] == 'n' || t[1] == 'r' || t[1] == 't')
  }

  /** The length of the first unit of literal text: a CRLF, a protected escape or a character. */
  function UnitLen(t: string): (k: nat)
    requires t != ""
    ensures 0 < k <= |t|
  {
    if "\r\n" <= t || IsProtected(t) then 2 else 1
  }

  /** The code for the first unit. */
  function UnitCode(t: string): (code: string)
    requires t != ""
    ensures code != "" && code[0] != '"'
  {
    if "\r\n" <= t then "\n"
    else if IsProtected(t) then ['\\', '\\', t[1]]
    else if t[0] == '"' then ['\\', '"']
    else [t[0]]
  }

  /** The code for literal text. */
  function Escape(t: string): string
    decreases |t|
  {
    if t == "" then "" else UnitCode(t) + Escape(t[UnitLen(t)..])
  }

  /** What can follow literal text: the end, or a tag. */
  predicate TextEnds(k: string) {
    k == "" || k[0] == '<'
  }

  predicate IsLiteralRule(rule: Rule) {
    rule.EscapedN? || rule.EscapedR? || rule.EscapedT? || rule.TextEol? || rule.TextChar?
  }

  /** The rule for the first unit, whatever tag or end comes after the text. */
  function UnitRule(t: string): (rule: Rule)
    requires t != ""
    ensures IsLiteralRule(rule)
  {
    if "\r\n" <= t || t[0] == LF then TextEol
    else if !IsProtected(t) then TextChar
    else if t[1] == 'n' then EscapedN
    else if t[1] == 'r' then EscapedR
    else EscapedT
  }

  lemma UnitMatch(atBol: bool, t: string, k: string)
    requires t != "" && !("<%" <= t) && TextEnds(k)
    ensures FindMatch(InText, atBol, t + k) == Match(UnitRule(t), UnitLen(t))
  {
    hide IncludeLen;
    var u := t + k;
    assert u[0] == t[0];
    if |t| > 1 {
      assert u[1] == t[1];
    } else if |u| > 1 {
      assert u[1] == k[0] == '<';
    }
    if t[0] == '<' {
      assert !("<%" <= u);
    }
  }

  lemma UnitTextCode(t: string)
    requires t != ""
    ensures TextCode(UnitRule(t), t[..UnitLen(t)]) == UnitCode(t)
  {
    if "\r\n" <= t {
    } else if IsProtected(t) {
    } else {
      assert t[..1] == [t[0]];
      if t[0] == '"' {
        assert t[..1] == "\"";
      }
    }
  }

  lemma NoTagHere(t: string)
    requires !Occurs("<%", t)
    ensures !("<%" <= t)
  {
    if "<%" <= t {
      OccursHere("<%", t);
    }
  }

  lemma NoTagAfter(t: string, i: nat)
    requires i <= |t| && !Occurs("<%", t)
    ensures !Occurs("<%", t[i..])
  {
    if Occurs("<%", t[i..]) {
      OccursAfter("<%", t, i);
    }
  }

  lemma ActLiteral(env: Env, s: Scanner, rule: Rule, tok: string)
    requires s.inputs != [] && tok <= s.inputs[0] && IsLiteralRule(rule)
    ensures Act(env, s, rule, tok) == Emit(Consume(s, |tok|), Chars(TextCode(rule, tok)))
  {
    hide TextCode, ActCode, ActInclude;
  }

  lemma StepMatch(env: Env, s: Scanner, t: string, k: string, outer: seq<string>, m: Match)
    requires s.mode.InText? && !s.done && t != "" && m.len <= |t| && IsLiteralRule(m.rule)
    requires FindMatch(InText, s.atBol, t + k) == m
    ensures Step(env, s.(inputs := [t + k] + outer)) ==
            Emit(s.(inputs := [t[m.len..] + k] + outer), Chars(TextCode(m.rule, t[..m.len])))
  {
    hide FindMatch, TextCode, Act;
    var s0 := s.(inputs := [t + k] + outer);
    assert (t + k)[..m.len] == t[..m.len];
    assert (t + k)[m.len..] == t[m.len..] + k;
    ActLiteral(env, s0, m.rule, t[..m.len]);
    assert s0.inputs[0 := t[m.len..] + k] == [t[m.len..] + k] + outer;
  }

  lemma StepText(env: Env, s: Scanner, t: string, k: string, outer: seq<string>)
    requires s.mode.InText? && !s.done && t != "" && !Occurs("<%", t) && TextEnds(k)
    ensures Step(env, s.(inputs := [t + k] + outer)) ==
            Emit(s.(inputs := [t[UnitLen(t)..] + k] + outer), Chars(UnitCode(t)))
  {
    hide FindMatch, TextCode, Step, UnitLen, UnitCode, UnitRule, Occurs;
    NoTagHere(t);
    UnitMatch(s.atBol, t, k);
    UnitTextCode(t);
    StepMatch(env, s, t, k, outer, Match(UnitRule(t), UnitLen(t)));
  }

  /** In text, the scanner goes over any text without tags, up to a tag or the end, and writes its
      code. */
  lemma {:induction false} TextRun(env: Env, s: Scanner, t: string, k: string, outer: seq<string>)
      returns (n: nat, code: seq<Piece>)
    requires s.mode.InText? && !s.done && !Occurs("<%", t) && TextEnds(k)
    ensures Run(env, s.(inputs := [t + k] + outer), n) ==
            s.(inputs := [k] + outer, pycode := s.pycode + code)
    ensures Render(code) == Escape(t)
    decreases |t|
  {
    hide Step, UnitLen, UnitCode, Occurs, Render;
    if t == "" {
      n, code := 0, [];
      assert t + k == k && s.pycode + code == s.pycode;
      assert Render([]) == "" by { RenderNothing(); }
    } else {
      StepText(env, s, t, k, outer);
      NoTagAfter(t, UnitLen(t));
      var p := Chars(UnitCode(t));
      var n1, code1 := TextRun(env, Emit(s, p), t[UnitLen(t)..], k, outer);
      n, code := n1 + 1, [p] + code1;
      RenderConcat([p], code1);
      RenderOne(p);
      assert s.pycode + [p] + code1 == s.pycode + code;
    }
  }

  lemma RenderNothing()
    ensures Render([]) == ""
  {
  }

  lemma StepBegin(env: Env, t: string)
    requires t != ""
    ensures Step(env, Start(t)) == Start(t).(mode := InText, pycode := [OpenWrite])
  {
  }

  lemma StepAtEnd(env: Env, s: Scanner)
    requires s.mode.InText? && !s.done && s.inputs == [""]
    ensures Step(env, s) == s.(inputs := [], done := true, pycode := s.pycode + [CloseWrite] + [Chars("\n")])
  {
  }
}
