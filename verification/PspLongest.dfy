/** The scanner's matches are those of its patterns: longest first, then first in order. */
module PspLongest {
  import opened PspScanner

  predicate IsEol(tok: string) {
    tok == "\r\n" || tok == "\n"
  }

  /** What stands between the head of an include directive and the end of its match. */
  predicate IsQuotedEnd(t: string) {
    |t| >= 2 && t[|t| - 1] == '"' && forall i :: 0 <= i < |t| - 1 ==> t[i] != ' '
  }

  /** The pattern of each rule; `.` stands for any character but a newline. */
  predicate InPattern(rule: Rule, tok: string) {
    match rule
    case Begin => IsEol(tok) || (|tok| == 1 && tok != "\n")
    case EscapedN => tok == "\\n"
    case EscapedR => tok == "\\r"
    case EscapedT => tok == "\\t"
    case OpenExpr => tok == "<%="
    case OpenCode => tok == "<%"
    case OpenDir => tok == "<%@"
    case OpenComment => tok == "<%--"
    case TextEol => IsEol(tok)
    case TextChar => |tok| == 1 && tok != "\n"
    case CodeEol => IsEol(tok) || tok == "\r"
    case CloseCode => tok == "%>"
    case Colon => tok == ":"
    case CodeChar => |tok| == 1 && tok != "\n"
    case Blanks => forall i :: 0 <= i < |tok| ==> IsBlankChar(tok[i])
    case IndentClose => tok == "%>"
    case IndentEol => IsEol(tok)
    case IndentChar => |tok| == 1 && tok != "\n"
    case Include => AfterHead(tok).Just? && IsQuotedEnd(AfterHead(tok).rest)
    case CloseDir => tok == "%>"
    case CloseComment => tok == "--%>"
    case Echo => |tok| == 1
  }

  /** The rules of each start condition; blanks count only at the beginning of a line. */
  predicate RuleApplies(rule: Rule, mode: Mode, atBol: bool) {
    match mode
    case InInitial => rule == Begin
    case InText => rule in {EscapedN, EscapedR, EscapedT, OpenExpr, OpenCode, OpenDir, OpenComment, TextEol, TextChar}
    case InCode => rule in {CodeEol, CloseCode, Colon, CodeChar}
    case InIndent => rule in {IndentClose, IndentEol, IndentChar} || (rule == Blanks && atBol)
    case InDir => rule in {Include, CloseDir, Echo}
    case InComment => rule in {CloseComment, Echo}
  }

  function Order(rule: Rule): nat {
    match rule
    case Begin => 1
    case EscapedN => 3 case EscapedR => 4 case EscapedT => 5
    case OpenExpr => 6 case OpenCode => 7 case OpenDir => 8 case OpenComment => 9
    case TextEol => 10 case TextChar => 11
    case CodeEol => 12 case CloseCode => 13 case Colon => 14 case CodeChar => 15
    case Blanks => 16 case IndentClose => 17 case IndentEol => 18 case IndentChar => 19
    case Include => 20 case CloseDir => 21 case CloseComment => 22 case Echo => 23
  }

  lemma EatLonger(p: string, s: string, tail: string)
    ensures Eat(p, s).Just? ==> Eat(p, s + tail) == Just(Eat(p, s).rest + tail)
    ensures Eat(p, s + tail).Just? && |Eat(p, s + tail).rest| >= |tail| ==> Eat(p, s).Just?
  {
    if p <= s {
      assert (s + tail)[|p|..] == s[|p|..] + tail;
    }
    if p <= s + tail && |p| <= |s| {
      assert s[..|p|] == (s + tail)[..|p|] == p;
    }
  }

  lemma SpacesLonger(s: string, tail: string)
    ensures CountSpaces(s) < |s| ==> CountSpaces(s + tail) == CountSpaces(s)
    ensures CountSpaces(s + tail) < |s| ==> CountSpaces(s) == CountSpaces(s + tail)
  {
    var k, k' := CountSpaces(s), CountSpaces(s + tail);
    assert forall i :: 0 <= i < |s| ==> (s + tail)[i] == s[i];
  }

  lemma SpacesThenLonger(p: string, s: string, tail: string)
    requires p != ""
    ensures SpacesThen(p, s).Just? ==> SpacesThen(p, s + tail) == Just(SpacesThen(p, s).rest + tail)
    ensures SpacesThen(p, s + tail).Just? && |SpacesThen(p, s + tail).rest| >= |tail| ==> SpacesThen(p, s).Just?
  {
    SpacesLonger(s, tail);
    var k := CountSpaces(s);
    EatLonger(p, s[k..], tail);
    if CountSpaces(s + tail) == k {
      assert (s + tail)[k..] == s[k..] + tail;
    }
  }

  lemma SpaceThenLonger(p: string, s: string, tail: string)
    requires p != "" && p[0] != ' '
    ensures SpaceThen(p, s).Just? ==> SpaceThen(p, s + tail) == Just(SpaceThen(p, s).rest + tail)
    ensures SpaceThen(p, s + tail).Just? && |SpaceThen(p, s + tail).rest| >= |tail| ==> SpaceThen(p, s).Just?
  {
    if s != "" {
      assert (s + tail)[0] == s[0];
      assert (s + tail)[1..] == s[1..] + tail;
      EatLonger(p, s[1..], tail);
    }
    EatLonger(p, s, tail);
  }

  /** A head that lies in `s` is found whatever follows `s`, and no other one is. */
  lemma HeadLonger(s: string, tail: string)
    ensures AfterHead(s).Just? ==> AfterHead(s + tail) == Just(AfterHead(s).rest + tail)
    ensures AfterHead(s + tail).Just? && |AfterHead(s + tail).rest| >= |tail| ==> AfterHead(s).Just?
  {
    hide Eat, SpacesThen, SpaceThen;
    EatLonger("include", s, tail);
    if Eat("include", s).Just? {
      var a := Eat("include", s).rest;
      SpacesThenLonger("file", a, tail);
      if SpacesThen("file", a).Just? {
        var b := SpacesThen("file", a).rest;
        SpaceThenLonger("=", b, tail);
        if SpaceThen("=", b).Just? {
          SpaceThenLonger("\"", SpaceThen("=", b).rest, tail);
        }
      }
    }
  }

  lemma QuotedEndInRun(t: string, k: nat)
    requires k <= |t| && IsQuotedEnd(t[..k])
    ensures k <= LastQuote(t[..CountNonSpaces(t)])
  {
    hide LastQuote, CountNonSpaces;
    var n := CountNonSpaces(t);
    assert t[k - 1] == t[..k][k - 1] == '"';
    assert forall i :: 0 <= i < k - 1 ==> t[i] == t[..k][i];
    assert k <= n;
    assert t[..n][k - 1] == '"';
  }

  lemma RunIsQuotedEnd(t: string)
    requires LastQuote(t[..CountNonSpaces(t)]) > 0
    ensures IsQuotedEnd(t[..LastQuote(t[..CountNonSpaces(t)])])
  {
    hide LastQuote, CountNonSpaces;
    var n := CountNonSpaces(t);
    var k := LastQuote(t[..n]);
    assert t[..k][k - 1] == t[..n][k - 1];
  }

  lemma TakeOfAppend(a: string, b: string, t: string)
    requires a + b == t
    ensures t[..|a|] == a
  {
  }

  /** The include directive's match is the longest there is. */
  lemma IncludeIsLongest(s: string, k: nat)
    requires k <= |s| && InPattern(Include, s[..k])
    ensures k <= IncludeLen(s)
  {
    hide AfterHead, LastQuote, CountNonSpaces;
    var tok := s[..k];
    assert s == tok + s[k..];
    HeadLonger(tok, s[k..]);
    var t, u := AfterHead(s).rest, AfterHead(tok).rest;
    TakeOfAppend(u, s[k..], t);
    QuotedEndInRun(t, |u|);
  }

  lemma IncludeMatches(s: string)
    requires IncludeLen(s) > 0
    ensures InPattern(Include, s[..IncludeLen(s)])
  {
    hide AfterHead, LastQuote, IsQuotedEnd, CountNonSpaces;
    var t := AfterHead(s).rest;
    var k := IncludeLen(s);
    var (tok, tail) := (s[..k], s[k..]);
    assert s == tok + tail;
    HeadLonger(tok, tail);
    TakeOfAppend(AfterHead(tok).rest, tail, t);
    RunIsQuotedEnd(t);
  }

  /** What `MatchIsLongest` says of one competing match. */
  ghost predicate Beats(m: Match, mode: Mode, atBol: bool, s: string, rule: Rule, k: nat) {
    k <= |s| && RuleApplies(rule, mode, atBol) && InPattern(rule, s[..k]) ==>
      k < m.len || (k == m.len && Order(m.rule) <= Order(rule))
  }

  lemma DirMatchIsLongest(atBol: bool, s: string, rule: Rule, k: nat)
    requires s != ""
    ensures var m := FindMatch(InDir, atBol, s);
            InPattern(m.rule, s[..m.len]) && Beats(m, InDir, atBol, s, rule, k)
  {
    hide AfterHead, IncludeLen;
    if IncludeLen(s) > 0 {
      IncludeMatches(s);
    }
    if k <= |s| && rule == Include && InPattern(rule, s[..k]) {
      IncludeIsLongest(s, k);
    }
    if IncludeLen(s) > 0 {
      IncludeIsLonger(s);
    }
  }

  lemma IncludeIsLonger(s: string)
    requires IncludeLen(s) > 0
    ensures IncludeLen(s) > 2
  {
  }

  lemma IndentMatchIsLongest(atBol: bool, s: string, rule: Rule, k: nat)
    requires s != ""
    ensures var m := FindMatch(InIndent, atBol, s);
            InPattern(m.rule, s[..m.len]) && Beats(m, InIndent, atBol, s, rule, k)
  {
    hide CountBlanks;
    if k <= |s| && rule == Blanks && InPattern(rule, s[..k]) {
      assert forall i :: 0 <= i < k ==> s[i] == s[..k][i];
    }
    assert k <= |s| ==> s[..k] <= s && |s[..k]| == k;
  }

  /** The first characters decide which fixed pattern `s` can start with. */
  lemma PrefixChars(p: string, s: string)
    requires p <= s
    ensures |p| > 0 ==> s[0] == p[0]
    ensures |p| > 1 ==> s[1] == p[1]
    ensures |p| > 2 ==> s[2] == p[2]
  {
  }

  lemma CodeMatchIsLongest(atBol: bool, s: string, rule: Rule, k: nat)
    requires s != ""
    ensures var m := FindMatch(InCode, atBol, s);
            InPattern(m.rule, s[..m.len]) && Beats(m, InCode, atBol, s, rule, k)
  {
    if k <= |s| {
      PrefixChars(s[..k], s);
    }
  }

  lemma TextMatchIsLongest(atBol: bool, s: string, rule: Rule, k: nat)
    requires s != ""
    ensures var m := FindMatch(InText, atBol, s);
            InPattern(m.rule, s[..m.len]) && Beats(m, InText, atBol, s, rule, k)
  {
    if k <= |s| {
      PrefixChars(s[..k], s);
    }
  }

  /** What the scanner finds is in the pattern of its rule, and no rule of the start condition
      matches more, or as much and comes first. */
  lemma MatchIsLongest(mode: Mode, atBol: bool, s: string, rule: Rule, k: nat)
    requires s != ""
    ensures var m := FindMatch(mode, atBol, s);
            && RuleApplies(m.rule, mode, atBol) && InPattern(m.rule, s[..m.len])
            && Beats(m, mode, atBol, s, rule, k)
  {
    match mode
    case InInitial =>
      assert k <= |s| ==> s[..k] <= s && |s[..k]| == k;
    case InText => TextMatchIsLongest(atBol, s, rule, k);
    case InCode => CodeMatchIsLongest(atBol, s, rule, k);
    case InIndent => IndentMatchIsLongest(atBol, s, rule, k);
    case InDir => DirMatchIsLongest(atBol, s, rule, k);
    case InComment =>
      assert k <= |s| ==> s[..k] <= s && |s[..k]| == k;
  }
}
