/** The scanner as the parser object it works on: flags, buffers and the stack of files
    (`psp_parser_t` and `yylex`, src/psp_parser.c). */
module PspParser {
  import opened PspScanner

  class Parser {
    var mode: Mode
    var atBol: bool
    var isEcho: bool
    var afterColon: bool
    var seenNewline: bool
    var whitespace: string
    var pycode: seq<Piece>
    var inputs: seq<string>
    var failed: bool
    var done: bool

    ghost function View(): Scanner
      reads this
    {
      Scanner(mode, atBol, isEcho, afterColon, seenNewline, whitespace, pycode, inputs, failed, done)
    }

    constructor (template: string)
      ensures View() == Start(template)
    {
      mode, atBol, isEcho, afterColon, seenNewline := InInitial, true, false, false, false;
      whitespace, pycode, inputs, failed, done := "", [], [template], false, false;
    }

    method Append(p: Piece)
      modifies this`pycode
      ensures View() == PspScanner.Emit(old(View()), p)
    {
      pycode := pycode + [p];
    }

    method Skip(k: nat)
      requires inputs != [] && k <= |inputs[0]|
      modifies this`inputs
      ensures View() == Consume(old(View()), k)
    {
      inputs := inputs[0 := inputs[0][k..]];
    }

    method CloseBlock()
      modifies this
      ensures View() == AfterBlock(old(View()))
    {
      if isEcho {
        Append(CloseStr);
        Append(OpenWrite);
        isEcho := false;
      } else {
        if !seenNewline {
          Append(Chars(";"));
        }
        if afterColon {
          whitespace := whitespace + "\t";
          afterColon := false;
        }
        Append(Chars(whitespace));
        Append(OpenWrite);
      }
    }

    method OpenInclude(env: Env, tok: string)
      modifies this
      ensures View() == ActInclude(env, old(View()), tok)
    {
      var path := PathOf(env, FileNameOf(tok));
      if path in env.files {
        inputs := [env.files[path]] + inputs;
        mode := InText;
      } else {
        failed := true;
      }
    }

    method ActOnText(rule: Rule, tok: string)
      requires IsTextRule(rule)
      modifies this
      ensures View() == ActText(old(View()), rule, tok)
    {
      match rule
      case EscapedN => Append(Chars("\\\\n"));
      case EscapedR => Append(Chars("\\\\r"));
      case EscapedT => Append(Chars("\\\\t"));
      case OpenExpr =>
        Append(CloseWrite);
        Append(OpenStr);
        isEcho, mode := true, InCode;
      case OpenCode =>
        Append(CloseWrite);
        Append(Chars(";"));
        whitespace, seenNewline, mode := "", false, InCode;
      case OpenDir => mode := InDir;
      case OpenComment => mode := InComment;
      case TextEol => Append(Chars("\n"));
      case TextChar => Append(Chars(if tok == "\"" then "\\\"" else tok));
    }

    method EndLine(tok: string)
      modifies this
      ensures View() == ActToken(old(View()), CodeEol, tok)
    {
      Append(Chars("\n"));
      seenNewline, mode, atBol := true, InIndent, tok != "\r";
    }

    method Indent(tok: string)
      modifies this
      ensures View() == ActToken(old(View()), Blanks, tok)
    {
      whitespace := tok;
      Append(Chars(tok));
      mode := InCode;
    }

    method ActOnToken(rule: Rule, tok: string)
      requires IsCodeRule(rule) && !PushesBack(rule)
      modifies this
      ensures View() == ActToken(old(View()), rule, tok)
    {
      hide AfterBlock;
      if rule == CloseCode {
        CloseBlock();
        mode := InText;
      } else if rule == CodeEol {
        EndLine(tok);
      } else if rule == Blanks {
        Indent(tok);
      } else {
        Append(Chars(tok));
        afterColon := rule == Colon;
      }
    }

    method ActOnCode(rule: Rule, tok: string)
      requires IsCodeRule(rule) && inputs != [] && tok <= inputs[0]
      modifies this
      ensures View() == ActCode(old(View()), rule, tok)
    {
      hide ActToken;
      if !PushesBack(rule) {
        Skip(|tok|);
        ActOnToken(rule, tok);
      } else {
        if rule != IndentClose {
          whitespace := "";
        }
        mode := InCode;
      }
    }

    method ActOnRule(env: Env, rule: Rule, tok: string)
      requires inputs != [] && tok <= inputs[0]
      modifies this
      ensures View() == Act(env, old(View()), rule, tok)
    {
      hide ActText, ActCode, ActInclude;
      if IsTextRule(rule) {
        Skip(|tok|);
        ActOnText(rule, tok);
      } else if IsCodeRule(rule) {
        ActOnCode(rule, tok);
      } else if rule == Begin {
        Append(OpenWrite);
        mode := InText;
      } else {
        Skip(|tok|);
        if rule == Include {
          OpenInclude(env, tok);
        } else if rule != Echo {
          mode := InText;
        }
      }
    }

    method EndOfFile()
      requires inputs != []
      modifies this
      ensures View() == AtEnd(old(View()))
    {
      if mode != InText {
        done := true;
      } else {
        inputs := inputs[1..];
        if inputs == [] {
          Append(CloseWrite);
          Append(Chars("\n"));
          done := true;
        } else {
          mode := InDir;
        }
      }
    }

    /** One turn of the scanner's loop. */
    method NextToken(env: Env)
      requires !done && inputs != []
      modifies this
      ensures View() == Step(env, old(View()))
    {
      hide Act, FindMatch;
      if inputs[0] == "" {
        EndOfFile();
      } else {
        var m := FindMatch(mode, atBol, inputs[0]);
        ActOnRule(env, m.rule, inputs[0][..m.len]);
      }
    }

    /** At most `n` turns of the scanner's loop. */
    method Lex(env: Env, n: nat)
      modifies this
      ensures View() == Run(env, old(View()), n)
    {
      hide Step;
      var i := 0;
      while i < n && !done && inputs != []
        invariant i <= n && Run(env, View(), n - i) == Run(env, old(View()), n)
        decreases n - i
      {
        NextToken(env);
        i := i + 1;
      }
      RunStopped(env, View(), n - i);
    }
  }

  lemma {:induction false} RunStopped(env: Env, s: Scanner, n: nat)
    requires n == 0 || s.done || s.inputs == []
    ensures Run(env, s, n) == s
    decreases n
  {
    if n > 0 {
      RunStopped(env, s, n - 1);
    }
  }
}
