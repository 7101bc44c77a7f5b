/** Including a file is the same as writing its contents there. */
module PspInclude {
  import opened Bytes
  import opened PspLongest
  import opened PspRegions
  import opened PspScanner
  import opened Text

  /** There is a quote among the characters before the first space. */
  predicate QuoteAhead(s: string) {
    '"' in s[..CountNonSpaces(s)]
  }

  lemma {:induction false} LastQuoteTail(t: string, x: string)
    requires '"' !in x
    ensures LastQuote(t + x) == LastQuote(t)
    decreases |x|
  {
    if x == "" {
      assert t + x == t;
    } else if |t + x| > 1 {
      var s := t + x;
      assert s[|s| - 1] == x[|x| - 1];
      assert s[..|s| - 1] == t + x[..|x| - 1];
      LastQuoteTail(t, x[..|x| - 1]);
    }
  }

  lemma NonSpacesTail(t: string, rest: string)
    ensures CountNonSpaces(t + rest) ==
            if CountNonSpaces(t) < |t| then CountNonSpaces(t) else |t| + CountNonSpaces(rest)
  {
    if t == "" {
      assert t + rest == rest;
    } else {
      assert (t + rest)[1..] == t[1..] + rest;
      NonSpacesTail(t[1..], rest);
    }
  }

  /** A directive's head, after which no space comes. */
  predicate IsOpenRun(s: string) {
    AfterHead(s).Just? && ' ' !in AfterHead(s).rest
  }

  /** What follows a complete directive head cannot change its match, unless there is no space
      between and a quote comes before the next one. */
  lemma IncludeIgnoresRest(s: string, rest: string)
    requires AfterHead(s).Just? && !(IsOpenRun(s) && QuoteAhead(rest))
    ensures IncludeLen(s + rest) == IncludeLen(s)
  {
    hide AfterHead, LastQuote, CountNonSpaces;
    HeadLonger(s, rest);
    var t := AfterHead(s).rest;
    NonSpacesTail(t, rest);
    var n := CountNonSpaces(t);
    if n < |t| {
      assert (t + rest)[..n] == t[..n];
    } else {
      NoSpaceIn(t);
      var x := rest[..CountNonSpaces(rest)];
      assert t[..n] == t;
      assert (t + rest)[..|t| + |x|] == t + x;
      LastQuoteTail(t, x);
    }
  }

  lemma NoSpaceIn(t: string)
    requires CountNonSpaces(t) == |t|
    ensures ' ' !in t
  {
  }

  predicate Clean(s: string) {
    '"' !in s && '%' !in s
  }

  predicate Quiet(s: string) {
    Clean(s) && 'n' !in s
  }

  lemma SpacesThenSplit(p: string, s: string) returns (h: string)
    requires SpacesThen(p, s).Just? && Quiet(p)
    ensures s == h + SpacesThen(p, s).rest && Quiet(h)
  {
    var k := CountSpaces(s);
    h := s[..k] + p;
    assert s == s[..k] + s[k..];
  }

  lemma SpaceThenSplit(p: string, s: string) returns (h: string)
    requires SpaceThen(p, s).Just?
    ensures s == h + p + SpaceThen(p, s).rest && Quiet(h)
  {
    var rest := SpaceThen(p, s).rest;
    if " " <= s {
      h := " ";
      assert s[1..] == p + rest;
      assert s == " " + s[1..];
      AppendAssoc(" ", p, rest);
    } else {
      h := "";
      assert s == p + rest;
      assert "" + p == p;
    }
  }

  /** Before its last character, a head has no quote and no percent sign, and its only `n` is the
      second character. */
  lemma HeadSplit(x: string) returns (q: string)
    requires AfterHead(x).Just?
    ensures x == ("in" + q) + "\"" + AfterHead(x).rest && Quiet(q)
  {
    hide Eat, SpacesThen, SpaceThen, Quiet;
    assert Quiet("clude") && Quiet("file") && Quiet("=") by { QuietWords(); }
    var a := Eat("include", x).rest;
    var h1 := SpacesThenSplit("file", a);
    var b := SpacesThen("file", a).rest;
    var h2 := SpaceThenSplit("=", b);
    var c := SpaceThen("=", b).rest;
    var h3 := SpaceThenSplit("\"", c);
    q := ("clude" + h1) + ((h2 + "=") + h3);
    QuietConcat("clude", h1);
    QuietConcat(h2, "=");
    QuietConcat(h2 + "=", h3);
    QuietConcat("clude" + h1, (h2 + "=") + h3);
    var d := SpaceThen("\"", c).rest;
    calc {
      x;
      "include" + (h1 + ((h2 + "=") + ((h3 + "\"") + d)));
      { HeadAssoc("include", h1, h2 + "=", h3, "\"", d); }
      (("include" + h1) + ((h2 + "=") + h3)) + "\"" + d;
      { assert "include" == "in" + "clude"; Regroup3("in", "clude", h1, (h2 + "=") + h3); }
      ("in" + q) + "\"" + d;
    }
  }

  lemma Regroup3(a: string, b: string, c: string, d: string)
    ensures ((a + b) + c) + d == a + ((b + c) + d)
  {
  }

  lemma HeadAssoc(a: string, b: string, c: string, d: string, e: string, f: string)
    ensures a + (b + (c + ((d + e) + f))) == ((a + b) + (c + d)) + e + f
  {
  }

  lemma QuietWords()
    ensures Quiet("clude") && Quiet("file") && Quiet("=")
  {
  }

  lemma QuietConcat(a: string, b: string)
    requires Quiet(a) && Quiet(b)
    ensures Quiet(a + b)
  {
  }

  /** A head that is complete only with what follows `s` leaves `s` without quotes and percent
      signs. */
  lemma HeadAcross(s: string, rest: string)
    requires AfterHead(s).Nothing? && AfterHead(s + rest).Just?
    ensures Clean(s)
  {
    hide AfterHead;
    HeadLonger(s, rest);
    var q := HeadSplit(s + rest);
    var h := "in" + q;
    var t := AfterHead(s + rest).rest;
    assert |s| <= |h|;
    assert forall i :: 0 <= i < |s| ==> s[i] == (s + rest)[i] == (h + ("\"" + t))[i] == h[i];
    assert forall i :: 0 <= i < |s| ==> h[i] in h;
  }

  /** From this state the scanner comes to the end of the lowest file in text after `n` turns,
      and not before. */
  ghost predicate Scans(env: Env, s: Scanner, n: nat)
    decreases n
  {
    && !s.done && s.inputs != [] && !s.mode.InInitial?
    && if |s.inputs| == 1 && s.inputs[0] == "" && s.mode.InText? then n == 0
       else n > 0 && Scans(env, Step(env, s), n - 1)
  }

  lemma EndsInCode(env: Env, s: Scanner, n: nat)
    requires |s.inputs| == 1 && s.inputs[0] == "" && !s.mode.InText?
    ensures !Scans(env, s, n)
  {
  }

  lemma {:induction false} CommentStuck(env: Env, s: Scanner, n: nat)
    requires |s.inputs| == 1 && s.mode.InComment? && |s.inputs[0]| < 4
    ensures !Scans(env, s, n)
    decreases |s.inputs[0]|
  {
    if s.inputs[0] == "" {
      EndsInCode(env, s, n);
    } else if n > 0 && !s.done {
      CommentStuck(env, Step(env, s), n - 1);
    }
  }

  lemma {:induction false} DirStuck(env: Env, s: Scanner, n: nat)
    requires |s.inputs| == 1 && s.mode.InDir? && (Clean(s.inputs[0]) || s.inputs[0] == "%")
    ensures !Scans(env, s, n)
    decreases |s.inputs[0]|
  {
    var t := s.inputs[0];
    if t == "" {
      EndsInCode(env, s, n);
    } else if n > 0 && !s.done {
      NoDirective(t);
      DirStuck(env, Step(env, s), n - 1);
    }
  }

  lemma NoDirective(t: string)
    requires t != "" && (Clean(t) || t == "%")
    ensures FindMatch(InDir, false, t) == Match(Echo, 1) && FindMatch(InDir, true, t) == Match(Echo, 1)
  {
    assert t[0] in t;
    HeadHasQuote(t);
  }

  lemma HeadHasQuote(t: string)
    ensures AfterHead(t).Just? ==> '"' in t && |t| > 1
  {
    if AfterHead(t).Just? {
      var q := HeadSplit(t);
      assert t[|"in" + q|] == '"';
    }
  }

  lemma CodeStuck(env: Env, s: Scanner, n: nat)
    requires |s.inputs| == 1 && s.mode.InCode?
    requires s.inputs[0] == "%" || s.inputs[0] == "-" || s.inputs[0] == "\r" || s.inputs[0] == ""
    ensures !Scans(env, s, n)
  {
    if s.inputs[0] == "" {
      EndsInCode(env, s, n);
    } else if n > 0 && !s.done {
      var s' := Step(env, s);
      var t := s.inputs[0];
      assert t[0] == '%' || t[0] == '-' || t[0] == '\r';
      assert FindMatch(InCode, s.atBol, t) == Match(if t == "\r" then CodeEol else CodeChar, 1);
      assert t[1..] == "";
      assert s'.inputs == [""] && !s'.mode.InText?;
      EndsInCode(env, s', n - 1);
    }
  }

  /** Two characters that begin a token of text which one of them does not. */
  predicate Combine(c: char, d: char) {
    || (c == '<' && d == '%')
    || (c == '\\' && (d == 'n' || d == 'r' || d == 't'))
    || (c == '\r' && d == '\n')
  }

  /** The last character of a file does not combine with the first one of what follows it. */
  predicate Separate(s: string, rest: string) {
    s != "" && rest != "" ==> !Combine(s[|s| - 1], rest[0])
  }

  /** What follows the lowest file does not change the token at its front. */
  predicate NextFits(s: Scanner, rest: string) {
    |s.inputs| == 1 ==>
      && (s.mode.InText? && |s.inputs[0]| == 1 ==> Separate(s.inputs[0], rest))
      && (s.mode.InDir? ==> !(IsOpenRun(s.inputs[0]) && QuoteAhead(rest)))
  }

  /** The state that scans the same lowest file, followed by `rest`, on top of `outer`. */
  function Rebase(s: Scanner, rest: string, outer: seq<string>): Scanner
    requires s.inputs != []
  {
    var m := |s.inputs| - 1;
    s.(inputs := s.inputs[..m] + [s.inputs[m] + rest] + outer)
  }

  function Lowest(s: Scanner): string
    requires s.inputs != []
  {
    s.inputs[|s.inputs| - 1]
  }

  /** A text that may open a directive, a comment or an expression only with what follows. */
  predicate HalfOpen(t: string) {
    t == "<%" || t == "<%-"
  }

  lemma HalfOpenStuck(env: Env, s: Scanner, n: nat)
    requires |s.inputs| == 1 && s.mode.InText? && HalfOpen(s.inputs[0])
    ensures !Scans(env, s, n)
  {
    hide IncludeLen, AfterBlock, TextCode;
    var t := s.inputs[0];
    if n > 0 && !s.done {
      var s' := Step(env, s);
      HalfOpenMatch(s.atBol, t);
      hide FindMatch;
      assert t[2..] == (if t == "<%" then "" else "-");
      assert s'.mode.InCode? && s'.inputs == [t[2..]];
      CodeStuck(env, s', n - 1);
    }
  }

  lemma HalfOpenMatch(atBol: bool, t: string)
    requires HalfOpen(t)
    ensures FindMatch(InText, atBol, t) == Match(OpenCode, 2)
  {
    hide IncludeLen;
    assert t[0] == '<' && t[1] == '%' && (|t| > 2 ==> t[2] == '-');
  }

  lemma TextLookaheadMatch(atBol: bool, t: string, rest: string)
    requires t != "" && (|t| == 1 ==> Separate(t, rest)) && !HalfOpen(t)
    ensures FindMatch(InText, atBol, t + rest) == FindMatch(InText, atBol, t)
  {
    hide IncludeLen;
    assert forall i :: 0 <= i < |t| ==> (t + rest)[i] == t[i];
    if |t| == 1 {
      assert rest != "" ==> (t + rest)[1] == rest[0];
    } else if |t| == 2 {
      assert t == [t[0], t[1]];
    } else if |t| == 3 {
      assert t == [t[0], t[1], t[2]];
    } else {
    }
  }

  lemma TextLookahead(env: Env, s: Scanner, rest: string, n: nat)
    requires Scans(env, s, n) && |s.inputs| == 1 && s.inputs[0] != "" && s.mode.InText?
    requires NextFits(s, rest)
    ensures FindMatch(InText, s.atBol, s.inputs[0] + rest) == FindMatch(InText, s.atBol, s.inputs[0])
  {
    hide Scans, FindMatch;
    if HalfOpen(s.inputs[0]) {
      HalfOpenStuck(env, s, n);
    }
    TextLookaheadMatch(s.atBol, s.inputs[0], rest);
  }

  lemma CodeLookahead(env: Env, s: Scanner, rest: string, n: nat)
    requires Scans(env, s, n) && |s.inputs| == 1 && s.inputs[0] != "" && s.mode.InCode?
    ensures FindMatch(InCode, s.atBol, s.inputs[0] + rest) == FindMatch(InCode, s.atBol, s.inputs[0])
  {
    hide Scans;
    var t := s.inputs[0];
    assert forall i :: 0 <= i < |t| ==> (t + rest)[i] == t[i];
    if t == "%" || t == "\r" {
      CodeStuck(env, s, n);
    }
  }

  lemma BlanksTail(t: string, rest: string)
    requires CountBlanks(t) < |t|
    ensures CountBlanks(t + rest) == CountBlanks(t)
  {
    assert (t + rest)[1..] == t[1..] + rest;
    if IsBlankChar(t[0]) {
      BlanksTail(t[1..], rest);
    }
  }

  lemma IndentLookahead(env: Env, s: Scanner, rest: string, n: nat)
    requires Scans(env, s, n) && |s.inputs| == 1 && s.inputs[0] != "" && s.mode.InIndent?
    ensures FindMatch(InIndent, s.atBol, s.inputs[0] + rest) == FindMatch(InIndent, s.atBol, s.inputs[0])
  {
    hide IncludeLen, Scans;
    var t := s.inputs[0];
    if s.atBol && IsBlankChar(t[0]) {
      if CountBlanks(t) < |t| {
        BlanksTail(t, rest);
      } else {
        BlanksStuck(env, s, n);
      }
    } else {
      if t == "%" || t == "\r" {
        IndentStuck(env, s, n);
      }
      assert forall i :: 0 <= i < |t| ==> (t + rest)[i] == t[i];
    }
  }

  lemma BlanksStuck(env: Env, s: Scanner, n: nat)
    requires |s.inputs| == 1 && s.inputs[0] != "" && s.mode.InIndent?
    requires s.atBol && IsBlankChar(s.inputs[0][0]) && CountBlanks(s.inputs[0]) == |s.inputs[0]|
    ensures !Scans(env, s, n)
  {
    if n > 0 && !s.done {
      var s' := Step(env, s);
      assert s.inputs[0][|s.inputs[0]|..] == "";
      assert s'.mode.InCode? && s'.inputs == [""];
      CodeStuck(env, s', n - 1);
    }
  }

  lemma IndentStuck(env: Env, s: Scanner, n: nat)
    requires |s.inputs| == 1 && s.mode.InIndent? && (s.inputs[0] == "%" || s.inputs[0] == "\r")
    ensures !Scans(env, s, n)
  {
    if n > 0 && !s.done {
      var s' := Step(env, s);
      var t := s.inputs[0];
      assert t[0] == '%' || t[0] == '\r';
      assert FindMatch(InIndent, s.atBol, t) == Match(IndentChar, 1);
      assert s'.mode.InCode? && s'.inputs == [t];
      CodeStuck(env, s', n - 1);
    }
  }

  lemma DirLookahead(env: Env, s: Scanner, rest: string, n: nat)
    requires Scans(env, s, n) && |s.inputs| == 1 && s.inputs[0] != "" && s.mode.InDir?
    requires NextFits(s, rest)
    ensures FindMatch(InDir, s.atBol, s.inputs[0] + rest) == FindMatch(InDir, s.atBol, s.inputs[0])
  {
    hide Scans, AfterHead, QuoteAhead;
    var t := s.inputs[0];
    assert forall i :: 0 <= i < |t| ==> (t + rest)[i] == t[i];
    if Clean(t) || t == "%" {
      DirStuck(env, s, n);
    }
    assert !Clean(t) && t != "%";
    if AfterHead(t).Just? {
      IncludeIgnoresRest(t, rest);
    } else if AfterHead(t + rest).Just? {
      HeadAcross(t, rest);
    }
  }

  lemma CommentLookahead(env: Env, s: Scanner, rest: string, n: nat)
    requires Scans(env, s, n) && |s.inputs| == 1 && s.inputs[0] != "" && s.mode.InComment?
    ensures FindMatch(InComment, s.atBol, s.inputs[0] + rest) == FindMatch(InComment, s.atBol, s.inputs[0])
  {
    hide Scans;
    var t := s.inputs[0];
    if |t| < 4 {
      CommentStuck(env, s, n);
    }
    assert forall i :: 0 <= i < 4 ==> (t + rest)[i] == t[i];
  }

  /** In a file that the scanner gets to the end of in text, what comes after it changes no match but
      for two: that of a last character of text, and that of a directive whose quoted run reaches the
      end. */
  lemma Lookahead(env: Env, s: Scanner, rest: string, n: nat)
    requires Scans(env, s, n) && |s.inputs| == 1 && s.inputs[0] != ""
    requires NextFits(s, rest)
    ensures FindMatch(s.mode, s.atBol, s.inputs[0] + rest) == FindMatch(s.mode, s.atBol, s.inputs[0])
  {
    hide FindMatch;
    match s.mode
    case InInitial =>
    case InText => TextLookahead(env, s, rest, n);
    case InCode => CodeLookahead(env, s, rest, n);
    case InIndent => IndentLookahead(env, s, rest, n);
    case InDir => DirLookahead(env, s, rest, n);
    case InComment => CommentLookahead(env, s, rest, n);
  }

  function Pushed(env: Env, rule: Rule, tok: string): seq<string> {
    var path := PathOf(env, FileNameOf(tok));
    if rule == Include && path in env.files then [env.files[path]] else []
  }

  /** What an action does to the stack of files, and that nothing else depends on the stack. */
  ghost predicate HasShape(env: Env, s: Scanner, rule: Rule, tok: string, inputs': seq<string>)
    requires s.inputs != [] && tok <= s.inputs[0] && inputs' != [] && tok <= inputs'[0]
  {
    Act(env, s.(inputs := inputs'), rule, tok) ==
    Act(env, s, rule, tok).(inputs := Pushed(env, rule, tok) + [inputs'[0][|Eaten(rule, tok)|..]] + inputs'[1..])
  }

  lemma AfterBlockShape(s: Scanner, inputs': seq<string>)
    ensures AfterBlock(s.(inputs := inputs')) == AfterBlock(s).(inputs := inputs')
  {
    if s.isEcho {
    } else if s.seenNewline {
    } else {
    }
  }

  lemma ConsumeShape(inputs: seq<string>, k: nat)
    requires inputs != [] && k <= |inputs[0]|
    ensures inputs[0 := inputs[0][k..]] == [inputs[0][k..]] + inputs[1..]
  {
  }

  lemma OpenCodeShape(s: Scanner, rule: Rule, tok: string, inputs': seq<string>)
    requires rule == OpenExpr || rule == OpenCode
    ensures ActText(s.(inputs := inputs'), rule, tok) == ActText(s, rule, tok).(inputs := inputs')
  {
    hide TextCode;
    if rule == OpenExpr {
    } else {
    }
  }

  lemma TextShape(s: Scanner, rule: Rule, tok: string, inputs': seq<string>)
    requires IsTextRule(rule)
    ensures ActText(s.(inputs := inputs'), rule, tok) == ActText(s, rule, tok).(inputs := inputs')
  {
    hide TextCode;
    if rule == OpenExpr || rule == OpenCode {
      OpenCodeShape(s, rule, tok, inputs');
    } else if rule == OpenDir {
    } else if rule == OpenComment {
    } else {
    }
  }

  lemma CharShape(s: Scanner, rule: Rule, tok: string, inputs': seq<string>)
    requires IsCodeRule(rule) && !PushesBack(rule) && rule != CloseCode && rule != CodeEol && rule != Blanks
    ensures ActToken(s.(inputs := inputs'), rule, tok) == ActToken(s, rule, tok).(inputs := inputs')
  {
  }

  lemma EolShape(s: Scanner, tok: string, inputs': seq<string>)
    ensures ActToken(s.(inputs := inputs'), CodeEol, tok) == ActToken(s, CodeEol, tok).(inputs := inputs')
  {
  }

  lemma TokenShape(s: Scanner, rule: Rule, tok: string, inputs': seq<string>)
    requires IsCodeRule(rule) && !PushesBack(rule)
    ensures ActToken(s.(inputs := inputs'), rule, tok) == ActToken(s, rule, tok).(inputs := inputs')
  {
    hide AfterBlock;
    if rule == CloseCode {
      AfterBlockShape(s, inputs');
    } else if rule == CodeEol {
      EolShape(s, tok, inputs');
    } else if rule == Blanks {
    } else {
      hide ActToken;
      CharShape(s, rule, tok, inputs');
    }
  }

  /** What a rule but the one for directives leaves of the stack. */
  lemma NothingPushed(env: Env, rule: Rule, tok: string, inputs: seq<string>)
    requires rule != Include && inputs != [] && |Eaten(rule, tok)| <= |inputs[0]|
    ensures var k := |Eaten(rule, tok)|;
            Pushed(env, rule, tok) + [inputs[0][k..]] + inputs[1..] == inputs[0 := inputs[0][k..]]
  {
    hide FileNameOf, PathOf, Eaten;
    ConsumeShape(inputs, |Eaten(rule, tok)|);
    assert Pushed(env, rule, tok) == [];
  }

  lemma EatenWhole(rule: Rule, tok: string)
    requires !PushesBack(rule) && rule != Begin
    ensures Eaten(rule, tok) == tok
  {
  }

  lemma TextActShape(env: Env, s: Scanner, rule: Rule, tok: string, inputs': seq<string>)
    requires s.inputs != [] && tok <= s.inputs[0] && inputs' != [] && tok <= inputs'[0]
    requires IsTextRule(rule)
    ensures HasShape(env, s, rule, tok, inputs')
  {
    hide ActText, ActCode, ActInclude, Pushed, Eaten;
    EatenWhole(rule, tok);
    NothingPushed(env, rule, tok, inputs');
    TextShape(Consume(s, |tok|), rule, tok, inputs'[0 := inputs'[0][|tok|..]]);
  }

  lemma PushBackShape(env: Env, s: Scanner, rule: Rule, tok: string, inputs': seq<string>)
    requires s.inputs != [] && tok <= s.inputs[0] && inputs' != [] && tok <= inputs'[0]
    requires PushesBack(rule)
    ensures HasShape(env, s, rule, tok, inputs')
  {
    hide ActToken, ActInclude, ActText, FileNameOf, PathOf;
    assert inputs' == [] + [inputs'[0][0..]] + inputs'[1..];
    if rule == IndentClose {
    } else {
    }
  }

  lemma CodeActShape(env: Env, s: Scanner, rule: Rule, tok: string, inputs': seq<string>)
    requires s.inputs != [] && tok <= s.inputs[0] && inputs' != [] && tok <= inputs'[0]
    requires IsCodeRule(rule) && !PushesBack(rule)
    ensures HasShape(env, s, rule, tok, inputs')
  {
    hide ActToken, ActInclude, ActText, Pushed, Eaten;
    EatenWhole(rule, tok);
    NothingPushed(env, rule, tok, inputs');
    TokenShape(Consume(s, |tok|), rule, tok, inputs'[0 := inputs'[0][|tok|..]]);
  }

  lemma PushShape(env: Env, s: Scanner, tok: string, inputs': seq<string>)
    ensures ActInclude(env, s.(inputs := inputs'), tok) ==
            ActInclude(env, s, tok).(inputs := Pushed(env, Include, tok) + inputs')
  {
    hide FileNameOf, PathOf;
    if PathOf(env, FileNameOf(tok)) in env.files {
    } else {
      assert [] + inputs' == inputs';
    }
  }

  lemma IncludeActShape(env: Env, s: Scanner, tok: string, inputs': seq<string>)
    requires s.inputs != [] && tok <= s.inputs[0] && inputs' != [] && tok <= inputs'[0]
    ensures HasShape(env, s, Include, tok, inputs')
  {
    hide ActInclude, Pushed;
    ConsumeShape(inputs', |tok|);
    var eaten := [inputs'[0][|tok|..]] + inputs'[1..];
    PushShape(env, Consume(s, |tok|), tok, eaten);
    PushAssoc(Pushed(env, Include, tok), [inputs'[0][|tok|..]], inputs'[1..]);
  }

  lemma PushAssoc(a: seq<string>, b: seq<string>, c: seq<string>)
    ensures a + (b + c) == a + b + c
  {
  }

  lemma OtherActShape(env: Env, s: Scanner, rule: Rule, tok: string, inputs': seq<string>)
    requires s.inputs != [] && tok <= s.inputs[0] && inputs' != [] && tok <= inputs'[0]
    requires !IsTextRule(rule) && !IsCodeRule(rule) && rule != Include
    ensures HasShape(env, s, rule, tok, inputs')
  {
    hide FileNameOf, PathOf, ActText, ActCode, ActInclude;
    if rule == Begin {
      BeginShape(env, s, tok, inputs');
    } else {
      ConsumeShape(inputs', |tok|);
      EatenWhole(rule, tok);
      NothingPushed(env, rule, tok, inputs');
      hide Pushed, Eaten;
      if rule == Echo {
      } else {
      }
    }
  }

  lemma BeginShape(env: Env, s: Scanner, tok: string, inputs': seq<string>)
    requires s.inputs != [] && tok <= s.inputs[0] && inputs' != [] && tok <= inputs'[0]
    ensures HasShape(env, s, Begin, tok, inputs')
  {
    hide FileNameOf, PathOf;
    ConsumeShape(inputs', 0);
    assert inputs'[0][0..] == inputs'[0] && inputs'[0 := inputs'[0]] == inputs';
  }

  lemma ActShape(env: Env, s: Scanner, rule: Rule, tok: string, inputs': seq<string>)
    requires s.inputs != [] && tok <= s.inputs[0] && inputs' != [] && tok <= inputs'[0]
    ensures HasShape(env, s, rule, tok, inputs')
  {
    hide HasShape;
    if IsTextRule(rule) {
      TextActShape(env, s, rule, tok, inputs');
    } else if PushesBack(rule) {
      PushBackShape(env, s, rule, tok, inputs');
    } else if IsCodeRule(rule) {
      CodeActShape(env, s, rule, tok, inputs');
    } else if rule == Include {
      IncludeActShape(env, s, tok, inputs');
    } else {
      OtherActShape(env, s, rule, tok, inputs');
    }
  }

  lemma ActInputs(env: Env, s: Scanner, rule: Rule, tok: string)
    requires s.inputs != [] && tok <= s.inputs[0]
    ensures Act(env, s, rule, tok).inputs ==
            Pushed(env, rule, tok) + [s.inputs[0][|Eaten(rule, tok)|..]] + s.inputs[1..]
  {
    hide Act, Pushed, Eaten;
    ActShape(env, s, rule, tok, s.inputs);
  }

  /** One action, on a file below which nothing lies and on the same file followed by `rest`. */
  lemma ActRebase(env: Env, s: Scanner, rule: Rule, tok: string, rest: string, outer: seq<string>)
    requires s.inputs != [] && tok <= s.inputs[0]
    ensures tok <= Rebase(s, rest, outer).inputs[0]
    ensures Act(env, s, rule, tok).inputs != []
    ensures Act(env, Rebase(s, rest, outer), rule, tok) == Rebase(Act(env, s, rule, tok), rest, outer)
  {
    hide Act, Pushed, Eaten;
    var s' := Rebase(s, rest, outer);
    ActInputs(env, s, rule, tok);
    ActShape(env, s, rule, tok, s'.inputs);
    var p, e := Pushed(env, rule, tok), |Eaten(rule, tok)|;
    EatenIsShort(rule, tok);
    var after := p + [s.inputs[0][e..]] + s.inputs[1..];
    RebaseInputs(p, s.inputs, e, rest, outer);
  }

  lemma EatenIsShort(rule: Rule, tok: string)
    ensures |Eaten(rule, tok)| <= |tok|
  {
  }

  lemma RebaseInputs(p: seq<string>, inputs: seq<string>, e: nat, rest: string, outer: seq<string>)
    requires inputs != [] && e <= |inputs[0]|
    ensures var m := |inputs| - 1;
            var inputs' := inputs[..m] + [inputs[m] + rest] + outer;
            var after := p + [inputs[0][e..]] + inputs[1..];
            var k := |after| - 1;
            && e <= |inputs'[0]|
            && p + [inputs'[0][e..]] + inputs'[1..] == after[..k] + [after[k] + rest] + outer
  {
    if |inputs| == 1 {
      assert (inputs[0] + rest)[e..] == inputs[0][e..] + rest;
    }
  }

  lemma DropRebase(inputs: seq<string>, x: string, outer: seq<string>)
    requires |inputs| > 1
    ensures var m := |inputs| - 1;
            var inputs' := inputs[..m] + [x] + outer;
            && inputs'[0] == inputs[0] && |inputs'| > 1
            && inputs'[1..] == inputs[1..][..m - 1] + [x] + outer
  {
  }

  lemma EndRebase(env: Env, s: Scanner, rest: string, outer: seq<string>, n: nat)
    requires Scans(env, s, n) && n > 0 && s.inputs[0] == ""
    ensures Step(env, s).inputs != [] && Lowest(Step(env, s)) == Lowest(s)
    ensures Step(env, Rebase(s, rest, outer)) == Rebase(Step(env, s), rest, outer)
  {
    hide Act, FindMatch;
    assert |s.inputs| > 1 && s.mode.InText?;
    hide Scans;
    DropRebase(s.inputs, Lowest(s) + rest, outer);
  }

  lemma TokenRebase(env: Env, s: Scanner, rest: string, outer: seq<string>, n: nat)
    requires Scans(env, s, n) && s.inputs[0] != "" && NextFits(s, rest)
    ensures Step(env, s).inputs != []
    ensures Step(env, Rebase(s, rest, outer)) == Rebase(Step(env, s), rest, outer)
  {
    hide Act, FindMatch, NextFits;
    var s' := Rebase(s, rest, outer);
    var t := s.inputs[0];
    var m := FindMatch(s.mode, s.atBol, t);
    var tok := t[..m.len];
    if |s.inputs| == 1 {
      Lookahead(env, s, rest, n);
      assert s'.inputs[0] == t + rest;
      assert (t + rest)[..m.len] == tok;
    } else {
      assert s'.inputs[0] == t;
    }
    ActRebase(env, s, m.rule, tok, rest, outer);
  }

  /** One turn of the scanner commutes with putting its lowest file before `rest` on `outer`. */
  lemma StepRebase(env: Env, s: Scanner, rest: string, outer: seq<string>, n: nat)
    requires Scans(env, s, n) && n > 0 && NextFits(s, rest)
    ensures Scans(env, Step(env, s), n - 1)
    ensures Step(env, Rebase(s, rest, outer)) == Rebase(Step(env, s), rest, outer)
  {
    hide Step, NextFits, Rebase;
    if s.inputs[0] == "" {
      EndRebase(env, s, rest, outer, n);
    } else {
      TokenRebase(env, s, rest, outer, n);
    }
  }

  /** In every turn up to the end of the lowest file, what follows it does not change the token. */
  ghost predicate Fits(env: Env, s: Scanner, rest: string, n: nat)
    decreases n
  {
    n > 0 ==> NextFits(s, rest) && Fits(env, Step(env, s), rest, n - 1)
  }

  lemma {:induction false} NothingFits(env: Env, s: Scanner, n: nat)
    ensures Fits(env, s, "", n)
    decreases n
  {
    hide Step;
    if n > 0 {
      NothingFits(env, Step(env, s), n - 1);
    }
  }

  lemma {:induction false} RunRebase(env: Env, s: Scanner, rest: string, outer: seq<string>, n: nat)
    requires Scans(env, s, n) && Fits(env, s, rest, n)
    ensures Run(env, s, n).inputs == [""] && Run(env, s, n).mode.InText? && !Run(env, s, n).done
    ensures Run(env, Rebase(s, rest, outer), n) == Rebase(Run(env, s, n), rest, outer)
    decreases n
  {
    hide Step, NextFits, Rebase;
    if n > 0 {
      StepRebase(env, s, rest, outer, n);
      RunRebase(env, Step(env, s), rest, outer, n - 1);
    }
  }

  /** A directive that includes a file: `head` goes up to the quote before the file's name; before
      the head and after the name's quote, the scanner skips anything. */
  datatype Directive = Directive(lead: string, head: string, file: string, trail: string)

  /** A file name that can stand in a directive. */
  predicate PlainFileName(f: string) {
    f != "" && '"' !in f && ' ' !in f
  }

  /** What is skipped in a directive. */
  predicate IsSkipped(x: string) {
    '"' !in x && !Occurs("%>", x)
  }

  predicate IsDirective(d: Directive) {
    IsSkipped(d.lead) && AfterHead(d.head) == Just("") && PlainFileName(d.file) && IsSkipped(d.trail)
  }

  function Spaces(k: nat): string {
    seq(k, _ => ' ')
  }

  lemma EatHere(p: string, rest: string)
    ensures Eat(p, p + rest) == Just(rest)
  {
    assert (p + rest)[|p|..] == rest;
  }

  lemma SpacesThenHere(k: nat, p: string, rest: string)
    requires k > 0 && p != "" && p[0] != ' '
    ensures SpacesThen(p, Spaces(k) + (p + rest)) == Just(rest)
  {
    hide Eat;
    var s := Spaces(k) + (p + rest);
    assert s[k] == p[0] && forall i :: 0 <= i < k ==> s[i] == ' ';
    assert CountSpaces(s) == k && s[k..] == p + rest;
    EatHere(p, rest);
  }

  lemma SpaceThenHere(o: string, p: string, rest: string)
    requires (o == "" || o == " ") && p != "" && p[0] != ' '
    ensures SpaceThen(p, o + (p + rest)) == Just(rest)
  {
    hide Eat;
    var s := o + (p + rest);
    EatHere(p, rest);
    if o == "" {
      assert s == p + rest && s[0] == p[0];
    } else {
      assert s[1..] == p + rest;
    }
  }

  /** How heads are spelled: with any number of spaces after `include`, and one or none before and
      after the equals sign. */
  lemma SpelledHead(k: nat, o1: string, o2: string)
    requires k > 0 && (o1 == "" || o1 == " ") && (o2 == "" || o2 == " ")
    ensures AfterHead("include" + (Spaces(k) + ("file" + (o1 + ("=" + (o2 + "\"")))))) == Just("")
  {
    hide Eat, SpacesThen, SpaceThen, Spaces;
    var c := o2 + "\"";
    var b := o1 + ("=" + c);
    var a := Spaces(k) + ("file" + b);
    EatHere("include", a);
    SpacesThenHere(k, "file", b);
    SpaceThenHere(o1, "=", c);
    SpaceThenHere(o2, "\"", "");
    assert "\"" + "" == "\"";
  }

  function Inside(d: Directive): string {
    d.head + (d.file + "\"")
  }

  /** What follows the name in a template that goes on with `rest`. */
  function After(d: Directive, rest: string): string {
    d.trail + ("%>" + rest)
  }

  function PrintDirective(d: Directive): string {
    "<%@" + (d.lead + (Inside(d) + (d.trail + "%>")))
  }

  lemma PrintThen(d: Directive, rest: string)
    ensures PrintDirective(d) + rest == "<%@" + (d.lead + (Inside(d) + After(d, rest)))
  {
    hide Inside;
    AppendAssoc(d.trail, "%>", rest);
    AppendAssoc(Inside(d), d.trail + "%>", rest);
    AppendAssoc(d.lead, Inside(d) + (d.trail + "%>"), rest);
    AppendAssoc("<%@", d.lead + (Inside(d) + (d.trail + "%>")), rest);
  }

  lemma HeadOfInside(d: Directive, tail: string)
    requires IsDirective(d)
    ensures AfterHead(Inside(d) + tail) == Just(d.file + "\"" + tail)
    ensures AfterHead(Inside(d)) == Just(d.file + "\"")
  {
    hide AfterHead;
    HeadLonger(d.head, d.file + "\"");
    HeadLonger(d.head, d.file + "\"" + tail);
    AppendAssoc(d.head, d.file + "\"", tail);
    assert "" + (d.file + "\"") == d.file + "\"";
    assert "" + (d.file + "\"" + tail) == d.file + "\"" + tail;
  }

  lemma QuotedRun(f: string, tail: string)
    requires PlainFileName(f)
    ensures CountNonSpaces(f + "\"" + tail) == |f| + 1 + CountNonSpaces(tail)
  {
    NonSpacesAll(f + "\"");
    NonSpacesTail(f + "\"", tail);
  }

  lemma {:induction false} NonSpacesAll(s: string)
    requires ' ' !in s
    ensures CountNonSpaces(s) == |s|
  {
    if s != "" {
      NonSpacesAll(s[1..]);
    }
  }

  /** The scanner takes exactly the inside of a directive for one exactly when no quote follows it
      before a space; otherwise it takes all the text up to the last such quote as well. */
  lemma DirectiveIsWholeIff(d: Directive, tail: string)
    requires IsDirective(d)
    ensures IncludeLen(Inside(d) + tail) == |Inside(d)| <==> !QuoteAhead(tail)
  {
    hide AfterHead, LastQuote, CountNonSpaces;
    var f := d.file;
    HeadOfInside(d, tail);
    QuotedRun(f, tail);
    var t := f + "\"" + tail;
    var x := tail[..CountNonSpaces(tail)];
    var run := t[..CountNonSpaces(t)];
    assert run == (f + "\"") + x;
    assert |Inside(d) + tail| - |t| == |Inside(d)| - |f| - 1;
    if QuoteAhead(tail) {
      var i :| 0 <= i < |x| && x[i] == '"';
      assert run[|f| + 1 + i] == '"';
    } else {
      LastQuoteTail(f + "\"", x);
      assert LastQuote(f + "\"") == |f| + 1 by { LastQuoteWhole(f + "\""); }
    }
  }

  lemma LastQuoteWhole(s: string)
    requires |s| > 1 && s[|s| - 1] == '"'
    ensures LastQuote(s) == |s|
  {
  }

  lemma FileNameOfInside(d: Directive)
    requires IsDirective(d)
    ensures FileNameOf(Inside(d)) == d.file && Inside(d) != ""
  {
    hide AfterHead;
    HeadOfInside(d, "");
    assert d.file + "\"" == d.file + ['"'] + "";
    IndexOfConcat(d.file, '"', "");
  }

  /** A text at whose front the scanner skips a character of a directive. */
  predicate Skips(u: string) {
    u != "" && forall atBol :: FindMatch(InDir, atBol, u) == Match(Echo, 1)
  }

  lemma SkipsIf(u: string)
    requires u != "" && AfterHead(u).Nothing? && !("%>" <= u)
    ensures Skips(u)
  {
    hide AfterHead;
  }

  /** A closing tag does not go on beyond what is skipped. */
  lemma CloseOccurs(x: string, i: nat, c: char, t: string)
    requires i < |x| && c != '>' && "%>" <= x[i..] + ([c] + t)
    ensures Occurs("%>", x)
  {
    var u := x[i..] + ([c] + t);
    assert u[0] == '%' && u[1] == '>';
    assert i + 1 < |x|;
    assert x[i..i + 2] == [x[i], x[i + 1]] == "%>";
    assert OccursAt("%>", x, i);
  }

  /** Two heads that end with the same first quote are the same: there is only one `n` before it. */
  lemma OneHead(u: string, k: nat, p: string, q: string)
    requires Quiet(p) && Quiet(q)
    requires k + |p| + 2 < |u| && |q| + 2 < |u|
    requires u[..|q| + 2] == "in" + q && u[|q| + 2] == '"'
    requires u[k..k + |p| + 2] == "in" + p && u[k + |p| + 2] == '"' && '"' !in u[..k]
    ensures k == 0
  {
    assert forall j :: 0 <= j < |q| + 2 ==> u[j] == u[..|q| + 2][j] == ("in" + q)[j];
    assert forall j :: 0 <= j < |p| + 2 ==> u[k + j] == u[k..k + |p| + 2][j] == ("in" + p)[j];
    assert forall j :: 0 <= j < k ==> u[j] == u[..k][j] != '"';
    assert forall j :: 0 <= j < |q| + 2 ==> u[j] != '"' && (j > 1 ==> u[j] != 'n');
    assert forall j :: k <= j < k + |p| + 2 ==> u[j] == ("in" + p)[j - k] != '"';
    assert k + |p| == |q|;
    assert u[k + 1] == 'n';
  }

  lemma QuoteBeforePercent(u: string, k: nat)
    requires AfterHead(u).Just? && k < |u| && u[k] == '%'
    ensures '"' in u[..k]
  {
    hide AfterHead;
    var q := HeadSplit(u);
    assert forall j :: 0 <= j < |q| + 2 ==> u[j] == ("in" + q)[j];
    assert u[..k][|q| + 2] == '"';
  }

  /** Before the head, no other head begins. */
  lemma NoHeadBefore(d: Directive, y: string, tail: string)
    requires IsDirective(d) && y != "" && '"' !in y
    ensures AfterHead(y + (Inside(d) + tail)).Nothing?
  {
    hide AfterHead, Occurs;
    var u := y + (Inside(d) + tail);
    var p := HeadSplit(d.head);
    HeadInside(d, p, tail);
    hide IsDirective, Inside;
    assert u[..|y|] == y && u[|y|..|y| + |p| + 2] == "in" + p && u[|y| + |p| + 2] == '"';
    if AfterHead(u).Just? {
      var q := HeadSplit(u);
      assert u[..|q| + 2] == "in" + q && u[|q| + 2] == '"';
      OneHead(u, |y|, p, q);
    }
  }

  lemma HeadInside(d: Directive, p: string, tail: string)
    requires d.head == ("in" + p) + "\"" + ""
    ensures var v := Inside(d) + tail;
            |p| + 2 < |v| && v[0] == 'i' && v[..|p| + 2] == "in" + p && v[|p| + 2] == '"'
  {
    assert d.head[..|p| + 2] == "in" + p && d.head[|p| + 2] == '"';
  }

  lemma LeadIsSkipped(d: Directive, i: nat, tail: string)
    requires IsDirective(d) && i < |d.lead|
    ensures Skips(d.lead[i..] + (Inside(d) + tail))
  {
    hide AfterHead, Skips, Occurs;
    var y, v := d.lead[i..], Inside(d) + tail;
    SuffixLacks(d.lead, i);
    NoHeadBefore(d, y, tail);
    var p := HeadSplit(d.head);
    HeadInside(d, p, tail);
    hide Inside;
    assert v == ['i'] + v[1..];
    if "%>" <= y + v {
      CloseOccurs(d.lead, i, 'i', v[1..]);
    }
    SkipsIf(y + v);
  }

  lemma SuffixLacks(x: string, i: nat)
    requires '"' !in x && i <= |x|
    ensures '"' !in x[i..]
  {
  }

  lemma TrailIsSkipped(x: string, i: nat, rest: string)
    requires IsSkipped(x) && i < |x|
    ensures Skips(x[i..] + ("%>" + rest))
  {
    hide AfterHead, Skips, Occurs;
    var u := x[i..] + ("%>" + rest);
    assert "%>" + rest == ['%'] + (">" + rest);
    if "%>" <= u {
      CloseOccurs(x, i, '%', ">" + rest);
    }
    assert u[..|x| - i] == x[i..] && u[|x| - i] == '%';
    SuffixLacks(x, i);
    if AfterHead(u).Just? {
      QuoteBeforePercent(u, |x| - i);
    }
    SkipsIf(u);
  }

  lemma StepSkip(env: Env, s: Scanner, u: string, outer: seq<string>)
    requires s.mode.InDir? && !s.done && Skips(u)
    ensures Step(env, s.(inputs := [u] + outer)) == s.(inputs := [u[1..]] + outer)
  {
    hide FindMatch, ActText, ActCode, ActInclude;
    assert Consume(s.(inputs := [u] + outer), 1).inputs == [u[1..]] + outer;
  }

  lemma {:induction false} SkipRun(env: Env, s: Scanner, x: string, y: string, outer: seq<string>)
    requires s.mode.InDir? && !s.done
    requires forall i :: 0 <= i < |x| ==> Skips(x[i..] + y)
    ensures Run(env, s.(inputs := [x + y] + outer), |x|) == s.(inputs := [y] + outer)
    decreases |x|
  {
    hide Step, Skips;
    if x == "" {
      assert x + y == y;
    } else {
      assert x[0..] + y == x + y;
      StepSkip(env, s, x + y, outer);
      assert (x + y)[1..] == x[1..] + y;
      forall i | 0 <= i < |x[1..]|
        ensures Skips(x[1..][i..] + y)
      {
        assert x[1..][i..] == x[i + 1..];
      }
      SkipRun(env, s, x[1..], y, outer);
    }
  }

  /** The turns up to a directive's inside. */
  lemma ReachInside(env: Env, s: Scanner, d: Directive, rest: string, outer: seq<string>)
    requires s.mode.InText? && !s.done && IsDirective(d)
    ensures Run(env, s.(inputs := [PrintDirective(d) + rest] + outer), 1 + |d.lead|) ==
            s.(inputs := [Inside(d) + After(d, rest)] + outer, mode := InDir)
  {
    hide Inside, After, Step, IsDirective, Skips, PrintDirective;
    var tail := After(d, rest);
    var t1 := Inside(d) + tail;
    PrintThen(d, rest);
    var s0 := s.(inputs := ["<%@" + (d.lead + t1)] + outer);
    StepOpenDir(env, s, d.lead + t1, outer);
    forall i | 0 <= i < |d.lead|
      ensures Skips(d.lead[i..] + t1)
    {
      LeadIsSkipped(d, i, tail);
    }
    SkipRun(env, s.(mode := InDir), d.lead, t1, outer);
    RunAdd(env, s0, 1, |d.lead|);
    RunOne(env, s0);
  }

  /** The turns that open an included file. */
  lemma OpenInclude(env: Env, s: Scanner, d: Directive, rest: string, outer: seq<string>)
    requires s.mode.InText? && !s.done && IsDirective(d) && PathOf(env, d.file) in env.files
    requires !QuoteAhead(After(d, rest))
    ensures Run(env, s.(inputs := [PrintDirective(d) + rest] + outer), 2 + |d.lead|) ==
            s.(inputs := [env.files[PathOf(env, d.file)]] + ([After(d, rest)] + outer))
  {
    hide IncludeLen, FileNameOf, PathOf, QuoteAhead, Inside, After, Step, IsDirective, PrintDirective;
    var dir := s.(mode := InDir);
    ReachInside(env, s, d, rest, outer);
    DirectiveIsWholeIff(d, After(d, rest));
    FileNameOfInside(d);
    StepInclude(env, dir, Inside(d), After(d, rest), outer);
    RunAdd(env, s.(inputs := [PrintDirective(d) + rest] + outer), 1 + |d.lead|, 1);
    RunOne(env, dir.(inputs := [Inside(d) + After(d, rest)] + outer));
  }

  /** Which file a directive includes: the one in the directory of the templates, if this is given and
      the name does not begin with a slash, and otherwise the one of that name. If there is none, this
      is noted, and the scanner goes on after the name. */
  lemma NamedFileIsOpened(env: Env, s: Scanner, d: Directive, rest: string, outer: seq<string>)
    requires s.mode.InText? && !s.done && IsDirective(d) && !QuoteAhead(After(d, rest))
    ensures var path := if env.dir.Just? && d.file[0] != '/' then env.dir.rest + d.file else d.file;
            Run(env, s.(inputs := [PrintDirective(d) + rest] + outer), 2 + |d.lead|) ==
            if path in env.files then s.(inputs := [env.files[path]] + ([After(d, rest)] + outer))
            else s.(inputs := [After(d, rest)] + outer, mode := InDir, failed := true)
  {
    DirectivePath(env, d);
    hide QuoteAhead, IsDirective, PrintDirective, After, PathOf, Run;
    if PathOf(env, d.file) in env.files {
      OpenInclude(env, s, d, rest, outer);
    } else {
      MissingInclude(env, s, d, rest, outer);
    }
  }

  lemma PathIs(env: Env, f: string)
    ensures PathOf(env, f) == if env.dir.Just? && (f == "" || f[0] != '/') then env.dir.rest + f else f
  {
  }

  lemma DirectivePath(env: Env, d: Directive)
    requires IsDirective(d)
    ensures PathOf(env, d.file) == if env.dir.Just? && d.file[0] != '/' then env.dir.rest + d.file else d.file
  {
    PathIs(env, d.file);
  }

  lemma MissingInclude(env: Env, s: Scanner, d: Directive, rest: string, outer: seq<string>)
    requires s.mode.InText? && !s.done && IsDirective(d) && PathOf(env, d.file) !in env.files
    requires !QuoteAhead(After(d, rest))
    ensures Run(env, s.(inputs := [PrintDirective(d) + rest] + outer), 2 + |d.lead|) ==
            s.(inputs := [After(d, rest)] + outer, mode := InDir, failed := true)
  {
    hide IncludeLen, FileNameOf, PathOf, QuoteAhead, Inside, After, Step, IsDirective, PrintDirective;
    var dir := s.(mode := InDir);
    ReachInside(env, s, d, rest, outer);
    DirectiveIsWholeIff(d, After(d, rest));
    FileNameOfInside(d);
    StepMissing(env, dir, Inside(d), After(d, rest), outer);
    RunAdd(env, s.(inputs := [PrintDirective(d) + rest] + outer), 1 + |d.lead|, 1);
    RunOne(env, dir.(inputs := [Inside(d) + After(d, rest)] + outer));
  }

  lemma StepMissing(env: Env, s: Scanner, inside: string, tail: string, outer: seq<string>)
    requires s.mode.InDir? && !s.done && inside != ""
    requires IncludeLen(inside + tail) == |inside|
    requires PathOf(env, FileNameOf(inside)) !in env.files
    ensures Step(env, s.(inputs := [inside + tail] + outer)) == s.(inputs := [tail] + outer, failed := true)
  {
    hide IncludeLen, FileNameOf, PathOf;
    var u := inside + tail;
    assert u[..|inside|] == inside && u[|inside|..] == tail;
    assert FindMatch(InDir, s.atBol, u) == Match(Include, |inside|);
    assert Consume(s.(inputs := [u] + outer), |inside|).inputs == [tail] + outer;
  }

  /** Nothing else is noted as a failure: a turn does so if and only if it comes upon a directive's
      inside that names no file. */
  lemma TurnFailsIff(env: Env, s: Scanner)
    requires !s.failed && !s.done && s.inputs != [] && s.inputs[0] != ""
    ensures Step(env, s).failed <==>
              var k := IncludeLen(s.inputs[0]);
              var f := FileNameOf(s.inputs[0][..k]);
              var path := if env.dir.Just? && (f == "" || f[0] != '/') then env.dir.rest + f else f;
              s.mode.InDir? && k > 0 && path !in env.files
  {
    hide IncludeLen, FileNameOf, PathOf;
    var k := IncludeLen(s.inputs[0]);
    PathIs(env, FileNameOf(s.inputs[0][..k]));
    var m := FindMatch(s.mode, s.atBol, s.inputs[0]);
    assert m.rule == Include <==> s.mode.InDir? && k > 0;
    hide FindMatch, ActText, ActCode;
    if IsTextRule(m.rule) {
      TextKeepsFailed(Consume(s, m.len), m.rule, s.inputs[0][..m.len]);
    } else if IsCodeRule(m.rule) {
      CodeKeepsFailed(s, m.rule, s.inputs[0][..m.len]);
    } else {
      assert m.rule == Include ==> m.len == k;
    }
  }

  lemma TextKeepsFailed(rest: Scanner, rule: Rule, tok: string)
    requires IsTextRule(rule)
    ensures ActText(rest, rule, tok).failed == rest.failed
  {
    hide TextCode;
    if rule == OpenExpr {
    } else if rule == OpenCode {
    } else if rule == OpenDir {
    } else if rule == OpenComment {
    } else {
    }
  }

  lemma CodeKeepsFailed(s: Scanner, rule: Rule, tok: string)
    requires IsCodeRule(rule) && s.inputs != [] && tok <= s.inputs[0]
    ensures ActCode(s, rule, tok).failed == s.failed
  {
    if PushesBack(rule) {
    } else {
      TokenKeepsFailed(Consume(s, |tok|), rule, tok);
      hide ActToken;
    }
  }

  lemma TokenKeepsFailed(rest: Scanner, rule: Rule, tok: string)
    requires IsCodeRule(rule) && !PushesBack(rule)
    ensures ActToken(rest, rule, tok).failed == rest.failed
  {
    if rule == CloseCode {
      AfterBlockKeepsFailed(rest);
      hide AfterBlock;
    } else if rule == CodeEol {
    } else if rule == Blanks {
    } else {
    }
  }

  lemma AfterBlockKeepsFailed(s: Scanner)
    ensures AfterBlock(s).failed == s.failed
  {
  }

  lemma RunOne(env: Env, s: Scanner)
    ensures Run(env, s, 1) == Step(env, s)
  {
    hide Step;
    assert Run(env, s, 1) == Run(env, Step(env, s), 0);
  }

  lemma StepOpenDir(env: Env, s: Scanner, t: string, outer: seq<string>)
    requires s.mode.InText? && !s.done
    ensures Step(env, s.(inputs := ["<%@" + t] + outer)) == s.(inputs := [t] + outer, mode := InDir)
  {
    var u := "<%@" + t;
    assert u[0] == '<' && u[1] == '%' && u[2] == '@' && u[3..] == t;
    var s0 := s.(inputs := [u] + outer);
    assert FindMatch(InText, s.atBol, u) == Match(OpenDir, 3);
    assert Consume(s0, 3).inputs == [t] + outer;
  }

  lemma StepInclude(env: Env, s: Scanner, inside: string, tail: string, outer: seq<string>)
    requires s.mode.InDir? && !s.done && inside != ""
    requires IncludeLen(inside + tail) == |inside|
    requires PathOf(env, FileNameOf(inside)) in env.files
    ensures Step(env, s.(inputs := [inside + tail] + outer)) ==
            s.(inputs := [env.files[PathOf(env, FileNameOf(inside))]] + ([tail] + outer), mode := InText)
  {
    hide IncludeLen, FileNameOf, PathOf;
    var u := inside + tail;
    assert u[..|inside|] == inside && u[|inside|..] == tail;
    assert FindMatch(InDir, s.atBol, u) == Match(Include, |inside|);
    assert Consume(s.(inputs := [u] + outer), |inside|).inputs == [tail] + outer;
  }

  lemma MatchCloseDir(atBol: bool, rest: string)
    ensures FindMatch(InDir, atBol, "%>" + rest) == Match(CloseDir, 2)
  {
    hide LastQuote, CountNonSpaces, SpacesThen, SpaceThen;
    var u := "%>" + rest;
    assert u[0] == '%' && !("include" <= u);
    assert AfterHead(u) == Nothing && IncludeLen(u) == 0;
    hide IncludeLen, AfterHead;
  }

  lemma StepCloseDir(env: Env, s: Scanner, rest: string, outer: seq<string>)
    requires s.mode.InDir? && !s.done
    ensures Step(env, s.(inputs := ["%>" + rest] + outer)) == s.(inputs := [rest] + outer, mode := InText)
  {
    var u := "%>" + rest;
    MatchCloseDir(s.atBol, rest);
    assert u[2..] == rest;
    hide FindMatch;
    assert Consume(s.(inputs := [u] + outer), 2).inputs == [rest] + outer;
  }

  lemma TrailRun(env: Env, s: Scanner, d: Directive, rest: string, outer: seq<string>)
    requires s.mode.InDir? && !s.done && IsDirective(d)
    ensures Run(env, s.(inputs := [After(d, rest)] + outer), |d.trail|) == s.(inputs := ["%>" + rest] + outer)
  {
    hide Step, Skips, AfterHead;
    forall i | 0 <= i < |d.trail|
      ensures Skips(d.trail[i..] + ("%>" + rest))
    {
      TrailIsSkipped(d.trail, i, rest);
    }
    SkipRun(env, s, d.trail, "%>" + rest, outer);
  }

  /** Where an included file ends, and the directive with it. */
  lemma CloseInclude(env: Env, r: Scanner, d: Directive, rest: string, outer: seq<string>)
    requires r.mode.InText? && !r.done && IsDirective(d)
    ensures Run(env, r.(inputs := [""] + ([After(d, rest)] + outer)), 2 + |d.trail|) == r.(inputs := [rest] + outer)
  {
    hide Step, Run, After, IsDirective;
    var below := [After(d, rest)] + outer;
    var s0 := r.(inputs := [""] + below);
    var dir := r.(mode := InDir);
    StepPop(env, r, below);
    TrailRun(env, dir, d, rest, outer);
    StepCloseDir(env, dir, rest, outer);
    RunAdd(env, s0, 1, |d.trail|);
    RunAdd(env, s0, 1 + |d.trail|, 1);
    RunOne(env, s0);
    RunOne(env, dir.(inputs := ["%>" + rest] + outer));
  }

  lemma StepPop(env: Env, r: Scanner, below: seq<string>)
    requires r.mode.InText? && !r.done && below != []
    ensures Step(env, r.(inputs := [""] + below)) == r.(inputs := below, mode := InDir)
  {
    assert ([""] + below)[1..] == below;
  }

  lemma RebaseOne(s: Scanner, c: string, rest: string, outer: seq<string>)
    requires s.inputs == [c]
    ensures Rebase(s, rest, outer) == s.(inputs := [c + rest] + outer)
  {
    assert s.inputs[..0] == [];
    assert [] + [c + rest] + outer == [c + rest] + outer;
  }

  /** How many turns a directive takes besides those for the file. */
  function TurnsOf(d: Directive): nat {
    4 + |d.lead| + |d.trail|
  }

  /** A directive whose file is scanned to its end in text, and what follows it is scanned with the
      file's code before it. */
  lemma IncludeRun(env: Env, s: Scanner, d: Directive, rest: string, outer: seq<string>, n: nat)
    requires s.mode.InText? && !s.done && IsDirective(d) && !QuoteAhead(After(d, rest))
    requires PathOf(env, d.file) in env.files
    requires Scans(env, s.(inputs := [env.files[PathOf(env, d.file)]]), n)
    ensures var r := Run(env, s.(inputs := [env.files[PathOf(env, d.file)]]), n);
            && r.mode.InText? && r.inputs == [""] && !r.done
            && Run(env, s.(inputs := [PrintDirective(d) + rest] + outer), n + TurnsOf(d)) ==
               r.(inputs := [rest] + outer)
  {
    hide Step, Scans, PathOf, PrintDirective, After, IsDirective, QuoteAhead;
    var c := env.files[PathOf(env, d.file)];
    var alone := s.(inputs := [c]);
    var start := s.(inputs := [PrintDirective(d) + rest] + outer);
    var below := [After(d, rest)] + outer;
    OpenInclude(env, s, d, rest, outer);
    NothingFits(env, alone, n);
    RunRebase(env, alone, "", below, n);
    RebaseOne(alone, c, "", below);
    assert c + "" == c;
    var r := Run(env, alone, n);
    RebaseOne(r, "", "", below);
    assert "" + "" == "";
    CloseInclude(env, r, d, rest, outer);
    RunAdd(env, start, 2 + |d.lead|, n);
    RunAdd(env, start, 2 + |d.lead| + n, 2 + |d.trail|);
  }

  /** Include is macro expansion: in text, a directive that names a file leads to the same state as
      the file's contents in its place, through whatever files that one includes, if no quote follows
      the name before the next space, the contents are scanned to their end in text, and no token goes
      on beyond it. */
  lemma IncludeIsExpansion(env: Env, s: Scanner, d: Directive, rest: string, outer: seq<string>, n: nat)
    requires s.mode.InText? && !s.done && IsDirective(d) && !QuoteAhead(After(d, rest))
    requires PathOf(env, d.file) in env.files
    requires Scans(env, s.(inputs := [env.files[PathOf(env, d.file)]]), n)
    requires Fits(env, s.(inputs := [env.files[PathOf(env, d.file)]]), rest, n)
    ensures var included := Run(env, s.(inputs := [PrintDirective(d) + rest] + outer), n + TurnsOf(d));
            && included == Run(env, s.(inputs := [env.files[PathOf(env, d.file)] + rest] + outer), n)
            && included.mode.InText? && included.inputs == [rest] + outer && !included.done
  {
    hide Step, Scans, Fits, PathOf, PrintDirective, After, IsDirective, QuoteAhead, TurnsOf;
    var c := env.files[PathOf(env, d.file)];
    var alone := s.(inputs := [c]);
    IncludeRun(env, s, d, rest, outer, n);
    RunRebase(env, alone, rest, outer, n);
    RebaseOne(alone, c, rest, outer);
    RebaseOne(Run(env, alone, n), "", rest, outer);
    assert "" + rest == rest;
  }

  /** So both templates generate the same code, and one scan ends if and only if the other does. */
  lemma ExpansionGeneratesTheSame(env: Env, s: Scanner, d: Directive, rest: string, outer: seq<string>, n: nat, m: nat)
    requires s.mode.InText? && !s.done && IsDirective(d) && !QuoteAhead(After(d, rest))
    requires PathOf(env, d.file) in env.files
    requires Scans(env, s.(inputs := [env.files[PathOf(env, d.file)]]), n)
    requires Fits(env, s.(inputs := [env.files[PathOf(env, d.file)]]), rest, n)
    ensures Run(env, s.(inputs := [PrintDirective(d) + rest] + outer), n + TurnsOf(d) + m) ==
            Run(env, s.(inputs := [env.files[PathOf(env, d.file)] + rest] + outer), n + m)
  {
    hide Step, Scans, Fits, PathOf, PrintDirective, After, IsDirective, QuoteAhead, TurnsOf;
    IncludeIsExpansion(env, s, d, rest, outer, n);
    RunAdd(env, s.(inputs := [PrintDirective(d) + rest] + outer), n + TurnsOf(d), m);
    RunAdd(env, s.(inputs := [env.files[PathOf(env, d.file)] + rest] + outer), n, m);
  }
}
