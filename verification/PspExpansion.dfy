/** Exactly when an include directive and the file's contents in its place are scanned alike. */
module PspExpansion {
  import opened PspInclude
  import opened PspRegions
  import opened PspScanner

  /** The file has a directive whose quoted run reaches the file's end. */
  ghost predicate HasOpenRun(env: Env, s: Scanner, n: nat)
    decreases n
  {
    || (|s.inputs| == 1 && s.mode.InDir? && IsOpenRun(s.inputs[0]))
    || (n > 0 && HasOpenRun(env, Step(env, s), n - 1))
  }

  /** What a turn leaves of the files. */
  lemma TurnInputs(env: Env, s: Scanner)
    requires !s.done && s.inputs != [] && s.inputs[0] != ""
    ensures var m := FindMatch(s.mode, s.atBol, s.inputs[0]);
            var tok := s.inputs[0][..m.len];
            Step(env, s).inputs ==
            Pushed(env, m.rule, tok) + [s.inputs[0][|Eaten(m.rule, tok)|..]] + s.inputs[1..]
  {
    hide Act, FindMatch, Pushed, Eaten;
    var m := FindMatch(s.mode, s.atBol, s.inputs[0]);
    ActInputs(env, s, m.rule, s.inputs[0][..m.len]);
  }

  /** The lowest file gets shorter from the front. */
  lemma StepLowest(env: Env, s: Scanner, n: nat)
    requires Scans(env, s, n) && n > 0
    ensures Step(env, s).inputs != []
    ensures |s.inputs| > 1 ==> Lowest(Step(env, s)) == Lowest(s)
    ensures |s.inputs| == 1 ==>
              && s.inputs[0] != "" && |Lowest(Step(env, s))| <= |s.inputs[0]|
              && Lowest(Step(env, s)) == s.inputs[0][|s.inputs[0]| - |Lowest(Step(env, s))|..]
  {
    if s.inputs[0] == "" {
      if |s.inputs| == 1 {
        EndsInCode(env, s, n);
      }
      EndRebase(env, s, "", [], n);
    } else {
      TurnInputs(env, s);
      hide Step, FindMatch, Pushed, Eaten;
    }
  }

  lemma LastTextToken(atBol: bool, t: string, rest: string)
    requires |t| > 1 && FindMatch(InText, atBol, t).len == |t|
    ensures Separate(t, rest)
  {
    hide IncludeLen;
    var c := t[|t| - 1];
    assert t == t[..|t| - 1] + [c];
  }

  lemma CloseIsSeparate(mode: Mode, atBol: bool, t: string, rest: string)
    requires t != "" && FindMatch(mode, atBol, t).len == |t|
    requires FindMatch(mode, atBol, t).rule in {CloseCode, CloseDir, CloseComment}
    ensures Separate(t, rest)
  {
    hide IncludeLen;
    assert t[|t| - 1] == '>';
  }

  lemma IncludeIsSeparate(atBol: bool, t: string, rest: string)
    requires t != "" && FindMatch(InDir, atBol, t) == Match(Include, |t|)
    ensures Separate(t, rest)
  {
    hide AfterHead;
    var u := AfterHead(t).rest;
    assert t[|t| - 1] == '"' by { LastOfHead(t); }
  }

  lemma LastOfHead(t: string)
    requires AfterHead(t).Just? && IncludeLen(t) == |t| > 0
    ensures t[|t| - 1] == '"'
  {
    hide AfterHead;
    var u := AfterHead(t).rest;
    var q := HeadSplit(t);
    assert t[|t| - 1] == u[|u| - 1];
  }

  /** A token in a tag that does not end it leaves the scanner in a tag. */
  lemma StaysInTag(env: Env, s: Scanner)
    requires !s.done && |s.inputs| == 1 && s.inputs[0] != "" && !s.mode.InText? && !s.mode.InInitial?
    requires FindMatch(s.mode, s.atBol, s.inputs[0]).rule !in {CloseCode, CloseDir, CloseComment, Include}
    ensures !Step(env, s).mode.InText? && !Step(env, s).done
  {
    TagRule(s.mode, s.atBol, s.inputs[0]);
    hide FindMatch, IsCodeRule, PushesBack;
    var m := FindMatch(s.mode, s.atBol, s.inputs[0]);
    ActStaysInTag(env, s, m.rule, s.inputs[0][..m.len]);
  }

  lemma TagRule(mode: Mode, atBol: bool, t: string)
    requires t != "" && !mode.InText? && !mode.InInitial?
    ensures var r := FindMatch(mode, atBol, t).rule;
            r == Echo || r == Include || r == CloseDir || r == CloseComment || IsCodeRule(r)
  {
    hide IncludeLen;
  }

  lemma ActStaysInTag(env: Env, s: Scanner, rule: Rule, tok: string)
    requires s.inputs != [] && tok <= s.inputs[0] && !s.mode.InText?
    requires rule == Echo || (IsCodeRule(rule) && rule != CloseCode)
    ensures !Act(env, s, rule, tok).mode.InText? && Act(env, s, rule, tok).done == s.done
  {
    hide ActText, ActInclude, AfterBlock;
    if rule == Echo {
      hide ActCode;
    } else if PushesBack(rule) {
      hide ActToken;
    } else {
    }
  }

  /** A last token of more than one character, or in a tag, does not combine with anything. */
  lemma LastToken(env: Env, s: Scanner, rest: string, n: nat)
    requires Scans(env, s, n) && n > 0 && |s.inputs| == 1 && s.inputs[0] != ""
    requires Step(env, s).inputs != [] && Lowest(Step(env, s)) == "" && !(s.mode.InText? && |s.inputs[0]| == 1)
    ensures Separate(s.inputs[0], rest)
  {
    hide Step, FindMatch, Pushed, Separate;
    var t := s.inputs[0];
    var m := FindMatch(s.mode, s.atBol, t);
    TurnInputs(env, s);
    assert m.len == |t| && t[..m.len] == t;
    if s.mode.InText? {
      LastTextToken(s.atBol, t, rest);
    } else if m.rule in {CloseCode, CloseDir, CloseComment} {
      CloseIsSeparate(s.mode, s.atBol, t, rest);
    } else if m.rule == Include {
      IncludeInDir(s.mode, s.atBol, t);
      IncludeIsSeparate(s.atBol, t, rest);
    } else {
      StaysInTag(env, s);
      NothingPushed(env, m.rule, t, s.inputs);
      EndsInCode(env, Step(env, s), n - 1);
    }
  }

  lemma IncludeInDir(mode: Mode, atBol: bool, t: string)
    requires t != "" && FindMatch(mode, atBol, t).rule == Include
    ensures mode.InDir?
  {
    hide IncludeLen;
  }

  lemma SeparateTail(t: string, k: nat, rest: string)
    requires k < |t|
    ensures Separate(t[k..], rest) <==> Separate(t, rest)
  {
  }

  lemma {:induction false} FitsIff(env: Env, s: Scanner, rest: string, n: nat)
    requires Scans(env, s, n)
    ensures Fits(env, s, rest, n) <==> Separate(Lowest(s), rest) && !(QuoteAhead(rest) && HasOpenRun(env, s, n))
    decreases n
  {
    hide Step, QuoteAhead, IsOpenRun, Separate;
    if n == 0 {
      NothingToSeparate(rest);
    } else {
      var s' := Step(env, s);
      StepLowest(env, s, n);
      FitsIff(env, s', rest, n - 1);
      if |s.inputs| == 1 {
        var t := s.inputs[0];
        if Lowest(s') == "" {
          NothingToSeparate(rest);
          if !(s.mode.InText? && |t| == 1) {
            LastToken(env, s, rest, n);
          }
        } else {
          SeparateTail(t, |t| - |Lowest(s')|, rest);
        }
      }
    }
  }

  lemma NothingToSeparate(rest: string)
    ensures Separate("", rest)
  {
  }

  /** The `j`-th file from the bottom of a stack. */
  function Level(inputs: seq<string>, j: nat): string
    requires j < |inputs|
  {
    inputs[|inputs| - 1 - j]
  }

  /** From the bottom, nothing is left to be scanned that is not in the target, and less at `j`. */
  ghost predicate IsShortAt(inputs: seq<string>, target: seq<string>, j: nat)
    requires j < |target|
  {
    && j <= |inputs|
    && (|inputs| > j ==> |Level(inputs, j)| < |Level(target, j)|)
    && forall i :: 0 <= i < j ==> |Level(inputs, i)| <= |Level(target, i)|
  }

  /** The scanner is beyond the target. */
  ghost predicate Passed(inputs: seq<string>, target: seq<string>) {
    exists j :: 0 <= j < |target| && IsShortAt(inputs, target, j)
  }

  lemma PopPasses(inputs: seq<string>, target: seq<string>)
    requires Passed(inputs, target) && inputs != []
    ensures Passed(inputs[1..], target)
  {
    var j :| 0 <= j < |target| && IsShortAt(inputs, target, j);
    assert forall i :: 0 <= i < |inputs| - 1 ==> Level(inputs[1..], i) == Level(inputs, i);
    assert IsShortAt(inputs[1..], target, if j < |inputs| then j else j - 1);
  }

  lemma TokenPasses(inputs: seq<string>, p: seq<string>, e: nat, target: seq<string>)
    requires Passed(inputs, target) && inputs != [] && e <= |inputs[0]| && (p != [] ==> e > 0)
    ensures Passed(p + [inputs[0][e..]] + inputs[1..], target)
  {
    var j :| 0 <= j < |target| && IsShortAt(inputs, target, j);
    var next := p + [inputs[0][e..]] + inputs[1..];
    assert forall i :: 0 <= i < |inputs| - 1 ==> Level(next, i) == Level(inputs, i);
    assert Level(next, |inputs| - 1) == inputs[0][e..];
    assert Level(inputs, |inputs| - 1) == inputs[0];
    assert IsShortAt(next, target, if j < |inputs| || p == [] then j else j - 1);
  }

  lemma StepPasses(env: Env, s: Scanner, target: seq<string>)
    requires Passed(s.inputs, target)
    ensures Passed(Step(env, s).inputs, target)
  {
    hide Passed;
    if s.done || s.inputs == [] {
    } else if s.inputs[0] == "" {
      PopPasses(s.inputs, target);
      assert |s.inputs| == 1 ==> s.inputs[1..] == [];
    } else {
      TurnInputs(env, s);
      var m := FindMatch(s.mode, s.atBol, s.inputs[0]);
      var tok := s.inputs[0][..m.len];
      hide Step, FindMatch;
      PushedEats(env, m.rule, tok);
      TokenPasses(s.inputs, Pushed(env, m.rule, tok), |Eaten(m.rule, tok)|, target);
    }
  }

  lemma PushedEats(env: Env, rule: Rule, tok: string)
    requires tok != ""
    ensures |Eaten(rule, tok)| <= |tok|
    ensures Pushed(env, rule, tok) != [] ==> |Eaten(rule, tok)| > 0
  {
    hide PathOf, FileNameOf;
  }

  lemma {:induction false} NeverBack(env: Env, s: Scanner, target: seq<string>, m: nat)
    requires Passed(s.inputs, target)
    ensures Run(env, s, m).inputs != target
    decreases m
  {
    hide Step;
    if m > 0 {
      StepPasses(env, s, target);
      hide Passed;
      NeverBack(env, Step(env, s), target, m - 1);
    }
  }

  /** In a directive with no quote before its last character, the scanner stays. */
  lemma {:induction false} LateQuoteStuck(env: Env, s: Scanner, n: nat)
    requires |s.inputs| == 1 && s.mode.InDir? && '%' !in s.inputs[0]
    requires forall i :: 0 <= i < |s.inputs[0]| - 1 ==> s.inputs[0][i] != '"'
    ensures !Scans(env, s, n)
    decreases |s.inputs[0]|
  {
    var t := s.inputs[0];
    if t == "" {
      EndsInCode(env, s, n);
    } else if n > 0 && !s.done {
      assert t[0] in t;
      LateQuoteEchoes(s.atBol, t);
      hide FindMatch;
      assert Step(env, s).inputs == [t[1..]];
      LateQuoteStuck(env, Step(env, s), n - 1);
    }
  }

  lemma LateQuoteEchoes(atBol: bool, t: string)
    requires t != "" && '%' !in t && forall i :: 0 <= i < |t| - 1 ==> t[i] != '"'
    ensures FindMatch(InDir, atBol, t) == Match(Echo, 1)
  {
    hide AfterHead;
    assert t[0] in t;
    if AfterHead(t).Just? {
      var q := HeadSplit(t);
      assert t[|q| + 2] == '"';
      assert AfterHead(t).rest == "";
    }
  }

  /** A directive whose quoted run is open, and goes on. */
  lemma OpenRunGoesOn(env: Env, s: Scanner, rest: string, n: nat)
    requires Scans(env, s, n) && |s.inputs| == 1 && s.mode.InDir?
    requires IsOpenRun(s.inputs[0]) && QuoteAhead(rest)
    ensures IncludeLen(s.inputs[0] + rest) > |s.inputs[0]|
  {
    hide AfterHead, Scans, LastQuote, CountNonSpaces;
    var t := s.inputs[0];
    var u := AfterHead(t).rest;
    var q := HeadSplit(t);
    if u == "" {
      assert t == ("in" + q) + "\"";
      assert forall i :: 0 <= i < |t| - 1 ==> t[i] == ("in" + q)[i];
      LateQuoteStuck(env, s, n);
    }
    HeadIsLonger(t, rest);
    NonSpacesAll(u);
    NonSpacesTail(u, rest);
    var x := rest[..CountNonSpaces(rest)];
    assert (u + rest)[..|u| + |x|] == u + x;
    var i :| 0 <= i < |x| && x[i] == '"';
    assert (u + x)[|u| + i] == '"';
  }

  lemma HeadIsLonger(t: string, rest: string)
    requires AfterHead(t).Just?
    ensures AfterHead(t + rest) == Just(AfterHead(t).rest + rest)
  {
    PspLongest.HeadLonger(t, rest);
  }

  /** When what follows does not fit, the token goes on beyond the end of the file. */
  lemma Overruns(env: Env, s: Scanner, rest: string, n: nat)
    requires Scans(env, s, n) && !NextFits(s, rest)
    ensures |s.inputs| == 1 && s.inputs[0] != ""
    ensures var m := FindMatch(s.mode, s.atBol, s.inputs[0] + rest);
            m.len > |s.inputs[0]| && !PushesBack(m.rule) && m.rule != Begin
  {
    hide Scans, Separate, IsOpenRun, QuoteAhead, FindMatch, IncludeLen;
    var t := s.inputs[0];
    if s.mode.InDir? {
      OpenRunGoesOn(env, s, rest, n);
      OpenRunIsSome(t);
      IncludeMatch(s.atBol, t + rest);
    } else {
      CombinedMatch(s.atBol, t, rest);
    }
  }

  lemma OpenRunIsSome(t: string)
    requires IsOpenRun(t)
    ensures t != ""
  {
    hide Eat, SpacesThen, SpaceThen;
  }

  lemma IncludeMatch(atBol: bool, u: string)
    requires IncludeLen(u) > 0
    ensures u != "" && FindMatch(InDir, atBol, u) == Match(Include, IncludeLen(u))
  {
    hide AfterHead, LastQuote, CountNonSpaces;
  }

  lemma CombinedMatch(atBol: bool, t: string, rest: string)
    requires |t| == 1 && !Separate(t, rest)
    ensures var m := FindMatch(InText, atBol, t + rest);
            m.len > 1 && !PushesBack(m.rule) && m.rule != Begin
  {
    hide IncludeLen;
    var u := t + rest;
    assert u[0] == t[0] && u[1] == rest[0];
    assert u[..2] == [u[0], u[1]];
  }

  /** Where the token goes on, the scanner passes the place where `rest` begins. */
  lemma OverrunPasses(env: Env, s: Scanner, rest: string, outer: seq<string>, n: nat)
    requires Scans(env, s, n) && !NextFits(s, rest)
    ensures Passed(Step(env, Rebase(s, rest, outer)).inputs, [rest] + outer)
  {
    Overruns(env, s, rest, n);
    var t := s.inputs[0];
    RebaseOne(s, t, rest, outer);
    var s' := Rebase(s, rest, outer);
    hide NextFits, Scans, Rebase;
    assert s'.inputs == [t + rest] + outer && s'.inputs[1..] == outer;
    TurnInputs(env, s');
    var m := FindMatch(s.mode, s.atBol, t + rest);
    var tok := (t + rest)[..m.len];
    assert Eaten(m.rule, tok) == tok;
    hide Step, FindMatch, Pushed, Eaten;
    PassedBy(Pushed(env, m.rule, tok), (t + rest)[m.len..], rest, outer);
  }

  lemma PassedBy(p: seq<string>, left: string, rest: string, outer: seq<string>)
    requires |left| < |rest|
    ensures Passed(p + [left] + outer, [rest] + outer)
  {
    var inputs, target := p + [left] + outer, [rest] + outer;
    assert forall i :: 0 <= i < |outer| ==> Level(inputs, i) == Level(target, i) == outer[|outer| - 1 - i];
    assert Level(inputs, |outer|) == left && Level(target, |outer|) == rest;
    assert IsShortAt(inputs, target, |outer|);
  }

  /** If what follows does not fit, the scanner never comes to where it begins. */
  lemma {:induction false} NeverMeets(env: Env, s: Scanner, rest: string, outer: seq<string>, n: nat, m: nat)
    requires Scans(env, s, n) && !Fits(env, s, rest, n)
    ensures Run(env, Rebase(s, rest, outer), m).inputs != [rest] + outer
    decreases n
  {
    hide Step, NextFits, Passed;
    if m == 0 {
      NotThere(env, s, rest, outer, n);
    } else if !NextFits(s, rest) {
      OverrunPasses(env, s, rest, outer, n);
      NeverBack(env, Step(env, Rebase(s, rest, outer)), [rest] + outer, m - 1);
    } else {
      StepRebase(env, s, rest, outer, n);
      hide Rebase;
      NeverMeets(env, Step(env, s), rest, outer, n - 1, m - 1);
    }
  }

  lemma NotThere(env: Env, s: Scanner, rest: string, outer: seq<string>, n: nat)
    requires Scans(env, s, n) && n > 0
    ensures Rebase(s, rest, outer).inputs != [rest] + outer
  {
    if |s.inputs| == 1 {
      SomethingLeft(env, s, n);
      RebaseOne(s, s.inputs[0], rest, outer);
      hide Rebase, Scans;
      assert ([s.inputs[0] + rest] + outer)[0] != ([rest] + outer)[0] by {
        assert |s.inputs[0] + rest| > |rest|;
      }
    } else {
      hide Scans;
      assert |Rebase(s, rest, outer).inputs| == |s.inputs| + |outer|;
    }
  }

  lemma SomethingLeft(env: Env, s: Scanner, n: nat)
    requires Scans(env, s, n) && n > 0 && |s.inputs| == 1
    ensures s.inputs[0] != ""
  {
    hide Step;
    if s.inputs[0] == "" && !s.mode.InText? {
      EndsInCode(env, s, n);
    }
  }

  /** A directive whose own match is whole, and the file's contents in its place, lead to the same state
      if and only if the last character of the contents and the first one after the directive do not
      make a token together, and no directive whose quoted run reaches the end of the contents is
      followed by a quote before the next space. */
  lemma IncludeIsExpansionIff(env: Env, s: Scanner, d: Directive, rest: string, outer: seq<string>, n: nat)
    requires s.mode.InText? && !s.done && IsDirective(d) && !QuoteAhead(After(d, rest))
    requires PathOf(env, d.file) in env.files
    requires Scans(env, s.(inputs := [env.files[PathOf(env, d.file)]]), n)
    ensures var c := env.files[PathOf(env, d.file)];
            var included := Run(env, s.(inputs := [PrintDirective(d) + rest] + outer), n + TurnsOf(d));
            (exists m: nat :: Run(env, s.(inputs := [c + rest] + outer), m) == included) <==>
            Separate(c, rest) && !(QuoteAhead(rest) && HasOpenRun(env, s.(inputs := [c]), n))
  {
    hide Step, Scans, Fits, PathOf, PrintDirective, After, IsDirective, QuoteAhead, TurnsOf, Run, Separate, HasOpenRun;
    var c := env.files[PathOf(env, d.file)];
    var alone := s.(inputs := [c]);
    FitsIff(env, alone, rest, n);
    IncludeRun(env, s, d, rest, outer, n);
    RebaseOne(alone, c, rest, outer);
    hide Rebase;
    if Fits(env, alone, rest, n) {
      IncludeIsExpansion(env, s, d, rest, outer, n);
    } else {
      forall m: nat
        ensures Run(env, s.(inputs := [c + rest] + outer), m).inputs != [rest] + outer
      {
        NeverMeets(env, alone, rest, outer, n, m);
      }
    }
  }
}
