/** The standard output of CGI programs (lib/python/mod_python/apache.py). */
module CgiStdout {
  import opened Bytes
  import opened Optional
  import opened Text

  const CRLFCRLF: string := "\r\n\r\n"
  const LFLF: string := "\n\n"

  lemma OccursShifts(p: string, s: string)
    requires s != ""
    ensures forall k :: 1 <= k <= |s| ==> OccursAt(p, s, k) == OccursAt(p, s[1..], k - 1)
  {
    forall k | 1 <= k <= |s|
      ensures OccursAt(p, s, k) == OccursAt(p, s[1..], k - 1)
    {
      if k + |p| <= |s| {
        assert s[1..][k - 1..k - 1 + |p|] == s[k..k + |p|];
      }
    }
  }

  /** The index of the first `p` in `s`, or the length of `s`. */
  function Find(p: string, s: string): (i: nat)
    requires p != ""
    ensures i <= |s| && (i < |s| ==> OccursAt(p, s, i))
    ensures forall k :: 0 <= k < i ==> !OccursAt(p, s, k)
  {
    if s == "" || p <= s then 0
    else
      OccursShifts(p, s);
      1 + Find(p, s[1..])
  }

  /** What processing a header line does to the request. */
  datatype Effect = SetStatus(code: int)
                  | SetContentType(name: string, content: string)
                  | AddHeader(name: string, value: string)

  /** The first word of a stripped string. */
  function FirstWord(v: string): string {
    if v == "" || IsSpace(v[0]) then "" else [v[0]] + FirstWord(v[1..])
  }

  /** The effect of a header line; nothing if processing it raises an exception.  `toInt` is
      Python's `int`. */
  function EffectOf(toInt: string -> Option<int>, line: string): Option<Effect> {
    var i := IndexOf(line, ':');
    if i == |line| then None
    else
      var h, v := line[..i], Strip(line[i + 1..]);
      if Lower(h) == "status" then
        if v == "" then None
        else match toInt(FirstWord(v))
          case None => None
          case Some(code) => Some(SetStatus(code))
      else if Lower(h) == "content-type" then Some(SetContentType(h, v))
      else Some(AddHeader(h, v))
  }

  /** The effects of lines up to the first that raises an exception, and whether none does. */
  function EffectsOf(toInt: string -> Option<int>, lines: seq<string>): (seq<Effect>, bool) {
    if lines == [] then ([], true)
    else match EffectOf(toInt, lines[0])
      case None => ([], false)
      case Some(e) => var r := EffectsOf(toInt, lines[1..]); ([e] + r.0, r.1)
  }

  lemma EffectsStep(toInt: string -> Option<int>, lines: seq<string>, i: nat, done: seq<Effect>)
    requires i < |lines|
    ensures match EffectOf(toInt, lines[i])
            case None => EffectsOf(toInt, lines[i..]) == ([], false) && done + [] == done
            case Some(e) =>
              && EffectsOf(toInt, lines[i..]).1 == EffectsOf(toInt, lines[i + 1..]).1
              && done + EffectsOf(toInt, lines[i..]).0 == (done + [e]) + EffectsOf(toInt, lines[i + 1..]).0
  {
    hide EffectOf;
    assert lines[i..][1..] == lines[i + 1..];
  }

  lemma EffectsEnd(toInt: string -> Option<int>, lines: seq<string>, done: seq<Effect>)
    ensures EffectsOf(toInt, lines[|lines|..]) == ([], true) && done + [] == done
  {
  }

  function Lines(block: string): seq<string> {
    Split(Unix(block), LF)
  }

  /** The header block and what follows it, if the headers are over. */
  function SplitHeaders(s: string): Option<(string, string)> {
    var p := Find(CRLFCRLF, s);
    if p < |s| then Some((s[..p], s[p + 4..]))
    else
      var q := Find(LFLF, s);
      if q < |s| then Some((s[..q], s[q + 2..])) else None
  }

  /** The fields of the object, and what it has done to the request. */
  datatype State = State(pos: nat, headersSent: bool, headers: string, effects: seq<Effect>, body: string)

  const FRESH: State := State(0, false, "", [], "")

  /** A write, and whether it raises an exception. */
  function Written(toInt: string -> Option<int>, st: State, s: string): (State, bool) {
    if s == "" then (st, false)
    else if st.headersSent then (st.(body := st.body + s, pos := st.pos + |s|), false)
    else
      var h := st.headers + s;
      match SplitHeaders(h)
      case None => (st.(headers := h, pos := st.pos + |s|), false)
      case Some((block, rest)) =>
        var e := EffectsOf(toInt, Lines(block));
        if e.1 then
          (st.(headers := h, effects := st.effects + e.0, headersSent := true, body := st.body + rest,
               pos := st.pos + |s|), false)
        else (st.(headers := h, effects := st.effects + e.0), true)
  }

  class Request {
    var effects: seq<Effect>
    var body: string

    constructor ()
      ensures effects == [] && body == ""
    {
      effects, body := [], "";
    }

    method Write(s: string)
      modifies `body
      ensures body == old(body) + s
    {
      body := body + s;
    }
  }

  class CGIStdout {
    const req: Request
    const toInt: string -> Option<int>
    var pos: nat
    var headersSent: bool
    var headers: string

    constructor (req: Request, toInt: string -> Option<int>)
      ensures this.req == req && this.toInt == toInt
      ensures View() == FRESH.(effects := req.effects, body := req.body)
    {
      this.req, this.toInt := req, toInt;
      pos, headersSent, headers := 0, false, "";
    }

    ghost function View(): State
      reads this, req
    {
      State(pos, headersSent, headers, req.effects, req.body)
    }

    method Write(s: string) returns (raised: bool)
      modifies this, req
      ensures (View(), raised) == Written(toInt, old(View()), s)
    {
      hide SplitHeaders, EffectsOf, Lines;
      if s == "" {
        return false;
      }
      if !headersSent {
        headers := headers + s;
        var split := SplitHeaders(headers);
        if split.Some? {
          raised := SetHeaders(Lines(split.value.0));
          if raised {
            return;
          }
          headersSent := true;
          req.Write(split.value.1);
        }
      } else {
        req.Write(s);
      }
      pos := pos + |s|;
      raised := false;
    }

    method SetHeaders(lines: seq<string>) returns (raised: bool)
      modifies req`effects
      ensures (req.effects, !raised) ==
              (old(req.effects) + EffectsOf(toInt, lines).0, EffectsOf(toInt, lines).1)
    {
      hide EffectsOf, EffectOf;
      var i := 0;
      assert lines[0..] == lines;
      while i < |lines|
        invariant i <= |lines|
        invariant req.effects + EffectsOf(toInt, lines[i..]).0 == old(req.effects) + EffectsOf(toInt, lines).0
        invariant EffectsOf(toInt, lines[i..]).1 == EffectsOf(toInt, lines).1
      {
        EffectsStep(toInt, lines, i, req.effects);
        var e := EffectOf(toInt, lines[i]);
        if e.None? {
          return true;
        }
        req.effects := req.effects + [e.value];
        i := i + 1;
      }
      EffectsEnd(toInt, lines, req.effects);
      raised := false;
    }
  }

  /** What has come of a program's output: the effects and the body, and what `tell` says, or the
      effects before an exception. */
  datatype Outcome = Done(effects: seq<Effect>, body: string, pos: nat) | Raised(effects: seq<Effect>)

  /** The outcome of writing chunks one after the other, until an exception. */
  function Run(toInt: string -> Option<int>, st: State, chunks: seq<string>): Outcome
    decreases |chunks|
  {
    if chunks == [] then Done(st.effects, st.body, st.pos)
    else
      var (st', raised) := Written(toInt, st, chunks[0]);
      if raised then Raised(st'.effects) else Run(toInt, st', chunks[1..])
  }

  /** An empty line ends the header block before the first CRLFCRLF, and the lines before it are
      well-formed. */
  predicate EndsEarly(toInt: string -> Option<int>, s: string) {
    var p, q := Find(CRLFCRLF, s), Find(LFLF, s);
    q < p < |s| && EffectsOf(toInt, Lines(s[..q])).1
  }
}
