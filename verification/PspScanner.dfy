/** The scanner that turns a template into Python code (src/psp_parser.c). */
module PspScanner {
  import opened Bytes
  import opened Text

  /** The start conditions. */
  datatype Mode = InInitial | InText | InCode | InIndent | InDir | InComment

  /** The scanner's rules, in the order in which they are tried; `Echo` is the default rule. */
  datatype Rule = Begin
                | EscapedN | EscapedR | EscapedT
                | OpenExpr | OpenCode | OpenDir | OpenComment | TextEol | TextChar
                | CodeEol | CloseCode | Colon | CodeChar
                | Blanks | IndentClose | IndentEol | IndentChar
                | Include | CloseDir | CloseComment | Echo

  /** A rule and the length of what it matches. */
  datatype Match = Match(rule: Rule, len: nat)

  predicate IsBlankChar(c: char) {
    c == '\t' || c == ' '
  }

  /** The number of characters at the front of `s` that are blanks, spaces, no spaces. */
  function CountBlanks(s: string): (k: nat)
    ensures k <= |s| && (forall i :: 0 <= i < k ==> IsBlankChar(s[i]))
    ensures k < |s| ==> !IsBlankChar(s[k])
  {
    if s != "" && IsBlankChar(s[0]) then 1 + CountBlanks(s[1..]) else 0
  }

  function CountSpaces(s: string): (k: nat)
    ensures k <= |s| && (forall i :: 0 <= i < k ==> s[i] == ' ')
    ensures k < |s| ==> s[k] != ' '
  {
    if s != "" && s[0] == ' ' then 1 + CountSpaces(s[1..]) else 0
  }

  function CountNonSpaces(s: string): (k: nat)
    ensures k <= |s| && (forall i :: 0 <= i < k ==> s[i] != ' ')
    ensures k < |s| ==> s[k] == ' '
  {
    if s != "" && s[0] != ' ' then 1 + CountNonSpaces(s[1..]) else 0
  }

  /** The length of the last prefix of `s` that is longer than one and ends in a quote, or 0. */
  function LastQuote(s: string): (k: nat)
    ensures k <= |s| && k != 1
    ensures k > 0 ==> s[k - 1] == '"'
    ensures forall j :: k <= j < |s| && 1 <= j ==> s[j] != '"'
  {
    if |s| <= 1 then 0
    else if s[|s| - 1] == '"' then |s|
    else LastQuote(s[..|s| - 1])
  }

  /** What is left of a string after a match at its front, if there is one. */
  datatype Maybe = Nothing | Just(rest: string)

  function Eat(p: string, s: string): (m: Maybe)
    ensures m.Just? ==> s == p + m.rest
  {
    if p <= s then Just(s[|p|..]) else Nothing
  }

  /** At least one space, then `p`. */
  function SpacesThen(p: string, s: string): (m: Maybe)
    ensures m.Just? ==> |m.rest| < |s| - |p|
  {
    var k := CountSpaces(s);
    if k == 0 then Nothing else Eat(p, s[k..])
  }

  /** At most one space, then `p`. */
  function SpaceThen(p: string, s: string): (m: Maybe)
    ensures m.Just? ==> |m.rest| <= |s| - |p|
  {
    Eat(p, if " " <= s then s[1..] else s)
  }

  /** What follows `"include"[ ]+"file"[ ]?=[ ]?"\""` in `s`, if `s` starts with that. */
  function AfterHead(s: string): (m: Maybe)
    ensures m.Just? ==> |m.rest| + 14 <= |s|
  {
    match Eat("include", s)
    case Nothing => Nothing
    case Just(a) => match SpacesThen("file", a)
      case Nothing => Nothing
      case Just(b) => match SpaceThen("=", b)
        case Nothing => Nothing
        case Just(c) => SpaceThen("\"", c)
  }

  /** The longest match of an include directive's inside: after its head, as many characters as
      possible that are no spaces, then a quote. */
  function IncludeLen(s: string): (k: nat)
    ensures k <= |s|
  {
    match AfterHead(s)
    case Nothing => 0
    case Just(t) =>
      var q := LastQuote(t[..CountNonSpaces(t)]);
      if q == 0 then 0 else |s| - |t| + q
  }

  /** The longest match at the front of `s`, and the first rule that has it; `atBol` tells
      whether the scanner stands at the beginning of a line. */
  function FindMatch(mode: Mode, atBol: bool, s: string): (m: Match)
    requires s != ""
    ensures 0 < m.len <= |s|
  {
    match mode
    case InInitial => Match(Begin, if "\r\n" <= s then 2 else 1)
    case InText =>
      if "\\n" <= s then Match(EscapedN, 2)
      else if "\\r" <= s then Match(EscapedR, 2)
      else if "\\t" <= s then Match(EscapedT, 2)
      else if "<%--" <= s then Match(OpenComment, 4)
      else if "<%=" <= s then Match(OpenExpr, 3)
      else if "<%@" <= s then Match(OpenDir, 3)
      else if "<%" <= s then Match(OpenCode, 2)
      else if "\r\n" <= s then Match(TextEol, 2)
      else if "\n" <= s then Match(TextEol, 1)
      else Match(TextChar, 1)
    case InCode =>
      if "\r\n" <= s then Match(CodeEol, 2)
      else if "\n" <= s || "\r" <= s then Match(CodeEol, 1)
      else if "%>" <= s then Match(CloseCode, 2)
      else if ":" <= s then Match(Colon, 1)
      else Match(CodeChar, 1)
    case InIndent =>
      if atBol && IsBlankChar(s[0]) then Match(Blanks, CountBlanks(s))
      else if "%>" <= s then Match(IndentClose, 2)
      else if "\r\n" <= s then Match(IndentEol, 2)
      else if "\n" <= s then Match(IndentEol, 1)
      else Match(IndentChar, 1)
    case InDir =>
      if IncludeLen(s) > 0 then Match(Include, IncludeLen(s))
      else if "%>" <= s then Match(CloseDir, 2)
      else Match(Echo, 1)
    case InComment =>
      if "--%>" <= s then Match(CloseComment, 4) else Match(Echo, 1)
  }

  /** What is appended to the Python code: the beginning and the end of a call that writes a
      triple-quoted literal, those of a call that writes an expression, or other characters. */
  datatype Piece = OpenWrite | CloseWrite | OpenStr | CloseStr | Chars(text: string)

  function PieceText(p: Piece): string {
    match p
    case OpenWrite => "req.write(\"\"\""
    case CloseWrite => "\"\"\",0)"
    case OpenStr => "; req.write(str("
    case CloseStr => "),0); "
    case Chars(text) => text
  }

  function Render(pieces: seq<Piece>): string {
    if pieces == [] then "" else PieceText(pieces[0]) + Render(pieces[1..])
  }

  lemma {:induction false} RenderConcat(a: seq<Piece>, b: seq<Piece>)
    ensures Render(a + b) == Render(a) + Render(b)
  {
    if a == [] {
      assert a + b == b;
    } else {
      assert (a + b)[1..] == a[1..] + b;
      RenderConcat(a[1..], b);
      AppendAssoc(PieceText(a[0]), Render(a[1..]), Render(b));
    }
  }

  lemma RenderOne(p: Piece)
    ensures Render([p]) == PieceText(p)
  {
    assert Render([p]) == PieceText(p) + "";
  }

  /** The scanner: `inputs` is what is left of the file being scanned and, under it, of the files
      that include it; `failed` tells whether a file could not be opened. */
  datatype Scanner = Scanner(mode: Mode, atBol: bool, isEcho: bool, afterColon: bool,
                             seenNewline: bool, whitespace: string, pycode: seq<Piece>,
                             inputs: seq<string>, failed: bool, done: bool)

  function Start(template: string): Scanner {
    Scanner(InInitial, true, false, false, false, "", [], [template], false, false)
  }

  /** The files that can be opened, by path, and the directory of the templates, if given. */
  datatype Env = Env(files: map<string, string>, dir: Maybe)

  function PathOf(env: Env, filename: string): string {
    if env.dir.Just? && !("/" <= filename) then env.dir.rest + filename else filename
  }

  /** The file name in a directive's match: from its first quote to the next. */
  function FileNameOf(tok: string): string {
    match AfterHead(tok)
    case Nothing => ""
    case Just(t) => t[..IndexOf(t, '"')]
  }

  function Emit(s: Scanner, p: Piece): Scanner {
    s.(pycode := s.pycode + [p])
  }

  function Consume(s: Scanner, k: nat): Scanner
    requires s.inputs != [] && k <= |s.inputs[0]|
  {
    s.(inputs := s.inputs[0 := s.inputs[0][k..]])
  }

  /** The literal that follows a block of code. */
  function AfterBlock(s: Scanner): Scanner {
    if s.isEcho then
      Emit(Emit(s, CloseStr), OpenWrite).(isEcho := false)
    else
      var s1 := if s.seenNewline then s else Emit(s, Chars(";"));
      var s2 := if s.afterColon then s1.(whitespace := s1.whitespace + "\t", afterColon := false) else s1;
      Emit(Emit(s2, Chars(s2.whitespace)), OpenWrite)
  }

  predicate IsTextRule(rule: Rule) {
    rule.EscapedN? || rule.EscapedR? || rule.EscapedT? || rule.OpenExpr? || rule.OpenCode?
    || rule.OpenDir? || rule.OpenComment? || rule.TextEol? || rule.TextChar?
  }

  predicate IsCodeRule(rule: Rule) {
    rule.CodeEol? || rule.CloseCode? || rule.Colon? || rule.CodeChar?
    || rule.Blanks? || rule.IndentClose? || rule.IndentEol? || rule.IndentChar?
  }

  /** The code for a token of literal text. */
  function TextCode(rule: Rule, tok: string): string {
    match rule
    case EscapedN => "\\\\n"
    case EscapedR => "\\\\r"
    case EscapedT => "\\\\t"
    case TextEol => "\n"
    case _ => if tok == "\"" then "\\\"" else tok
  }

  /** The actions of the rules for literal text, whose token is consumed. */
  function ActText(rest: Scanner, rule: Rule, tok: string): Scanner
    requires IsTextRule(rule)
  {
    if rule == OpenExpr then
      Emit(Emit(rest, CloseWrite), OpenStr).(isEcho := true, mode := InCode)
    else if rule == OpenCode then
      Emit(Emit(rest, CloseWrite), Chars(";")).(whitespace := "", seenNewline := false, mode := InCode)
    else if rule == OpenDir then rest.(mode := InDir)
    else if rule == OpenComment then rest.(mode := InComment)
    else Emit(rest, Chars(TextCode(rule, tok)))
  }

  /** The rules for the end of an indentation, which push their token back. */
  predicate PushesBack(rule: Rule) {
    rule.IndentClose? || rule.IndentEol? || rule.IndentChar?
  }

  /** The actions of the rules for code whose token is consumed.  Only the rule for line ends
      notes whether the next line begins there, since no other one leads to the start
      condition that asks. */
  function ActToken(rest: Scanner, rule: Rule, tok: string): Scanner
    requires IsCodeRule(rule) && !PushesBack(rule)
  {
    if rule == CloseCode then AfterBlock(rest).(mode := InText)
    else if rule == CodeEol then
      Emit(rest, Chars("\n")).(seenNewline := true, mode := InIndent, atBol := tok != "\r")
    else if rule == Blanks then Emit(rest, Chars(tok)).(whitespace := tok, mode := InCode)
    else Emit(rest, Chars(tok)).(afterColon := rule == Colon)
  }

  /** The actions of the rules for code on the token `tok` at the front of the current file. */
  function ActCode(s: Scanner, rule: Rule, tok: string): Scanner
    requires IsCodeRule(rule) && s.inputs != [] && tok <= s.inputs[0]
  {
    if !PushesBack(rule) then ActToken(Consume(s, |tok|), rule, tok)
    else if rule == IndentClose then s.(mode := InCode)
    else s.(whitespace := "", mode := InCode)
  }

  function ActInclude(env: Env, rest: Scanner, tok: string): Scanner {
    var path := PathOf(env, FileNameOf(tok));
    if path in env.files then rest.(inputs := [env.files[path]] + rest.inputs, mode := InText)
    else rest.(failed := true)
  }

  /** The action of a rule on the token `tok` at the front of the current file. */
  function Act(env: Env, s: Scanner, rule: Rule, tok: string): Scanner
    requires s.inputs != [] && tok <= s.inputs[0]
  {
    if IsTextRule(rule) then ActText(Consume(s, |tok|), rule, tok)
    else if IsCodeRule(rule) then ActCode(s, rule, tok)
    else if rule == Begin then Emit(s, OpenWrite).(mode := InText)
    else if rule == Include then ActInclude(env, Consume(s, |tok|), tok)
    else if rule == Echo then Consume(s, |tok|)
    else Consume(s, |tok|).(mode := InText)
  }

  /** The end of the current file. */
  function AtEnd(s: Scanner): Scanner
    requires s.inputs != []
  {
    if s.mode != InText then s.(done := true)
    else if |s.inputs| > 1 then s.(inputs := s.inputs[1..], mode := InDir)
    else Emit(Emit(s, CloseWrite), Chars("\n")).(inputs := [], done := true)
  }

  /** One turn of the scanner's loop. */
  function Step(env: Env, s: Scanner): Scanner {
    if s.done || s.inputs == [] then s
    else if s.inputs[0] == "" then AtEnd(s)
    else
      var m := FindMatch(s.mode, s.atBol, s.inputs[0]);
      Act(env, s, m.rule, s.inputs[0][..m.len])
  }

  function Run(env: Env, s: Scanner, n: nat): Scanner
    decreases n
  {
    if n == 0 then s else Run(env, Step(env, s), n - 1)
  }

  lemma {:induction false} RunAdd(env: Env, s: Scanner, m: nat, n: nat)
    ensures Run(env, s, m + n) == Run(env, Run(env, s, m), n)
    decreases m
  {
    hide Step;
    if m > 0 {
      RunAdd(env, Step(env, s), m - 1, n);
    }
  }

  lemma {:induction false} RunDone(env: Env, s: Scanner, n: nat)
    requires s.done
    ensures Run(env, s, n) == s
    decreases n
  {
    if n > 0 {
      assert Step(env, s) == s;
      RunDone(env, s, n - 1);
    }
  }
}
