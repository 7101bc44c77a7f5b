/** The regions of a template that its tags make. */
module PspRegions {
  import opened PspScanner
  import opened Text

  datatype Region = Outside | InBlock | InDirective | InNote

  /** The region after the first character or tag of `t`, and the length of that. */
  function Jump(t: string, r: Region): (j: (Region, nat))
    requires t != ""
    ensures 0 < j.1 <= |t|
  {
    match r
    case Outside =>
      if "<%--" <= t then (InNote, 4)
      else if "<%@" <= t then (InDirective, 3)
      else if "<%" <= t then (InBlock, 2)
      else (Outside, 1)
    case InBlock => if "%>" <= t then (Outside, 2) else (InBlock, 1)
    case InDirective => if "%>" <= t then (Outside, 2) else (InDirective, 1)
    case InNote => if "--%>" <= t then (Outside, 4) else (InNote, 1)
  }

  predicate IsSilent(r: Region) {
    r.InDirective? || r.InNote?
  }

  /** The newlines inside the comments and directives of `t`, which begins in the region `r`. */
  function Dropped(t: string, r: Region): nat
    decreases |t|
  {
    if t == "" then 0
    else
      var (r', k) := Jump(t, r);
      (if IsSilent(r) && r' == r && t[0] == LF then 1 else 0) + Dropped(t[k..], r')
  }

  /** No directive of `t` includes a file. */
  predicate IncludesNothing(t: string, r: Region)
    decreases |t|
  {
    t == "" ||
    var (r', k) := Jump(t, r);
    (r.InDirective? ==> IncludeLen(t) == 0) && IncludesNothing(t[k..], r')
  }

  function RegionOf(mode: Mode): Region {
    match mode
    case InInitial => Outside
    case InText => Outside
    case InCode => InBlock
    case InIndent => InBlock
    case InDir => InDirective
    case InComment => InNote
  }

  function RegionAfter(r: Region, rule: Rule): Region {
    match rule
    case OpenExpr => InBlock
    case OpenCode => InBlock
    case OpenDir => InDirective
    case OpenComment => InNote
    case CloseCode => Outside
    case CloseDir => Outside
    case CloseComment => Outside
    case _ => r
  }

  /** What is consumed of the current file by a rule; the rules for the end of an indentation
      push their token back. */
  function Eaten(rule: Rule, tok: string): string {
    if rule == Begin || PushesBack(rule) then "" else tok
  }

  /** What the walk over the regions keeps from `t` on to `u`. */
  ghost predicate Walks(t: string, r: Region, dropped: nat, u: string, r': Region) {
    && Dropped(t, r) == dropped + Dropped(u, r')
    && (IncludesNothing(t, r) ==> IncludesNothing(u, r'))
  }

  lemma WalkOne(t: string, r: Region)
    requires t != ""
    ensures var (r', k) := Jump(t, r);
            Walks(t, r, if IsSilent(r) && r' == r && t[0] == LF then 1 else 0, t[k..], r')
  {
    hide IncludeLen;
  }

  /** Two characters outside tags. */
  lemma WalkTwo(t: string, r: Region)
    requires |t| > 1 && !IsSilent(r) && Jump(t, r) == (r, 1) && Jump(t[1..], r) == (r, 1)
    ensures Walks(t, r, 0, t[2..], r)
  {
    WalkOne(t, r);
    WalkOne(t[1..], r);
    hide Dropped, IncludesNothing;
    assert t[1..][1..] == t[2..];
  }

  lemma {:induction false} WalkBlanks(t: string, k: nat)
    requires k <= CountBlanks(t)
    ensures Walks(t, InBlock, 0, t[k..], InBlock)
    decreases k
  {
    if k == 0 {
      assert t[0..] == t;
    } else {
      assert IsBlankChar(t[0]);
      WalkOne(t, InBlock);
      WalkBlanks(t[1..], k - 1);
      hide Dropped, IncludesNothing;
      assert t[1..][k - 1..] == t[k..];
    }
  }

  lemma WalkNone(t: string, r: Region)
    ensures Walks(t, r, 0, t[0..], r)
  {
    assert t[0..] == t;
  }

  lemma WalkText(atBol: bool, t: string)
    requires t != ""
    ensures var m := FindMatch(InText, atBol, t);
            Walks(t, Outside, 0, t[m.len..], RegionAfter(Outside, m.rule))
  {
    hide Dropped, IncludesNothing, IncludeLen, Walks;
    WalkOne(t, Outside);
    var m := FindMatch(InText, atBol, t);
    if m.rule.OpenExpr? {
      WalkExpr(t);
    } else if m.rule.EscapedN? || m.rule.EscapedR? || m.rule.EscapedT? || "\r\n" <= t {
      assert t[1..][0] == t[1];
      WalkTwo(t, Outside);
    }
  }

  lemma WalkExpr(t: string)
    requires "<%=" <= t
    ensures Walks(t, Outside, 0, t[3..], InBlock)
  {
    WalkOne(t, Outside);
    var u := t[2..];
    assert u[0] == '=' && u[1..] == t[3..];
    WalkOne(u, InBlock);
    hide Dropped, IncludesNothing;
  }

  lemma WalkCode(atBol: bool, t: string)
    requires t != ""
    ensures var m := FindMatch(InCode, atBol, t);
            Walks(t, InBlock, 0, t[m.len..], RegionAfter(InBlock, m.rule))
  {
    hide Dropped, IncludesNothing, IncludeLen, Walks;
    WalkOne(t, InBlock);
    var m := FindMatch(InCode, atBol, t);
    if m.rule.CodeEol? {
      assert t[0] == CR || t[0] == LF;
      assert Jump(t, InBlock) == (InBlock, 1);
      if m.len == 2 {
        assert t[1..][0] == LF;
        WalkTwo(t, InBlock);
      }
    } else if m.rule.CloseCode? {
    } else {
      assert Jump(t, InBlock) == (InBlock, 1);
    }
  }

  lemma WalkIndent(atBol: bool, t: string)
    requires t != ""
    ensures var m := FindMatch(InIndent, atBol, t);
            Walks(t, InBlock, 0, t[|Eaten(m.rule, t[..m.len])|..], RegionAfter(InBlock, m.rule))
  {
    hide Dropped, IncludesNothing, IncludeLen, Walks;
    if atBol && IsBlankChar(t[0]) {
      WalkBlanks(t, CountBlanks(t));
    } else {
      WalkNone(t, InBlock);
    }
  }

  lemma WalkSilent(mode: Mode, atBol: bool, t: string)
    requires t != "" && IsSilent(RegionOf(mode)) && (mode.InDir? ==> IncludeLen(t) == 0)
    ensures var m := FindMatch(mode, atBol, t);
            Walks(t, RegionOf(mode), if m.rule == Echo && t[0] == LF then 1 else 0, t[m.len..],
                  RegionAfter(RegionOf(mode), m.rule))
  {
    hide Dropped, IncludesNothing, IncludeLen, Walks;
    WalkOne(t, RegionOf(mode));
  }

  /** The next token of `t` takes the walk on, and includes nothing. */
  ghost predicate TokenWalks(mode: Mode, atBol: bool, t: string)
    requires t != ""
  {
    var m := FindMatch(mode, atBol, t);
    && m.rule != Include
    && Walks(t, RegionOf(mode), if m.rule == Echo && t[0] == LF then 1 else 0,
             t[|Eaten(m.rule, t[..m.len])|..], RegionAfter(RegionOf(mode), m.rule))
  }

  lemma TextTokenWalks(atBol: bool, t: string)
    requires t != ""
    ensures TokenWalks(InText, atBol, t)
  {
    hide Walks;
    WalkText(atBol, t);
  }

  lemma CodeTokenWalks(atBol: bool, t: string)
    requires t != ""
    ensures TokenWalks(InCode, atBol, t)
  {
    hide Walks;
    WalkCode(atBol, t);
  }

  lemma SilentTokenWalks(mode: Mode, atBol: bool, t: string)
    requires t != "" && IsSilent(RegionOf(mode)) && (mode.InDir? ==> IncludeLen(t) == 0)
    ensures TokenWalks(mode, atBol, t)
  {
    hide Walks, IncludeLen;
    WalkSilent(mode, atBol, t);
  }

  lemma OtherTokenWalks(mode: Mode, atBol: bool, t: string)
    requires t != "" && (mode.InInitial? || mode.InIndent?)
    ensures TokenWalks(mode, atBol, t)
  {
    hide Walks;
    if mode.InInitial? {
      WalkNone(t, Outside);
    } else {
      WalkIndent(atBol, t);
    }
  }

  /** One token of the scanner in a template, or what is left of it, that includes nothing. */
  lemma WalkToken(mode: Mode, atBol: bool, t: string)
    requires t != "" && IncludesNothing(t, RegionOf(mode))
    ensures TokenWalks(mode, atBol, t)
  {
    hide TokenWalks, IncludeLen, Dropped;
    match mode
    case InInitial => OtherTokenWalks(mode, atBol, t);
    case InText => TextTokenWalks(atBol, t);
    case InCode => CodeTokenWalks(atBol, t);
    case InIndent => OtherTokenWalks(mode, atBol, t);
    case InDir => SilentTokenWalks(mode, atBol, t);
    case InComment => SilentTokenWalks(mode, atBol, t);
  }
}
