/** Every handler runs in the interpreter that it asks for. */
module ThreadStateOwners {
  import opened Optional
  import opened ThreadStatePool

  /** The interpreter that a handler names, or the main one. */
  function Wanted(name: Option<string>): string {
    match name
    case Some(n) => n
    case None => "main_interpreter"
  }

  /** The interpreter that an activation asked for last. */
  function LastWanted(events: seq<Event>, a: Activation): Option<string> {
    if events == [] then None
    else
      match events[|events| - 1]
      case Get(b, name) => if b == a then Some(Wanted(name)) else LastWanted(events[..|events| - 1], a)
      case Release(_, _) => LastWanted(events[..|events| - 1], a)
  }

  /** The interpreter of a thread state: the one asked for when the thread state was first held. */
  function InterpreterOf(events: seq<Event>, x: TState): Option<string> {
    if events == [] then None
    else
      var before, last := events[..|events| - 1], events[|events| - 1];
      if InterpreterOf(before, x).Some? then InterpreterOf(before, x)
      else if last.Get? && Run(events).Some? && last.who in Run(events).value.held
              && Run(events).value.held[last.who].tstate == x then
        Some(Wanted(last.name))
      else None
  }

  /** What is held and pooled is of the right interpreter. */
  ghost predicate IsSorted(events: seq<Event>, s: State) {
    && (forall a :: a in s.held ==> LastWanted(events, a) == Some(s.held[a].name))
    && (forall a :: a in s.held ==> InterpreterOf(events, s.held[a].tstate) == Some(s.held[a].name))
    && (forall n, x :: n in s.available && x in s.available[n] ==> InterpreterOf(events, x) == Some(n))
    && (forall x: TState :: InterpreterOf(events, x).Some? ==> x < s.next)
  }

  lemma InterpreterStep(before: seq<Event>, e: Event, s: State, x: TState)
    requires Run(before) == Some(s) && IsEnabled(s, e)
    ensures Run(before + [e]) == Some(Step(s, e))
    ensures InterpreterOf(before + [e], x) ==
              if InterpreterOf(before, x).Some? then InterpreterOf(before, x)
              else if e.Get? && Step(s, e).held[e.who].tstate == x then Some(Wanted(e.name))
              else None
  {
    assert (before + [e])[..|before|] == before;
  }

  lemma MakeStaysSorted(before: seq<Event>, s: State, a: Activation, name: Option<string>)
    requires IsSorted(before, s) && Run(before) == Some(s) && IsEnabled(s, Get(a, name)) && Makes(s, NameOf(name))
    ensures IsSorted(before + [Get(a, name)], Step(s, Get(a, name)))
  {
    var events := before + [Get(a, name)];
    assert events[..|before|] == before;
    forall x ensures InterpreterOf(events, x) ==
                       if InterpreterOf(before, x).Some? then InterpreterOf(before, x)
                       else if x == s.next then Some(NameOf(name)) else None
    {
      InterpreterStep(before, Get(a, name), s, x);
    }
    hide InterpreterOf, Run;
  }

  lemma PopStaysSorted(before: seq<Event>, s: State, a: Activation, name: Option<string>)
    requires IsSorted(before, s) && Run(before) == Some(s) && IsEnabled(s, Get(a, name)) && !Makes(s, NameOf(name))
    ensures IsSorted(before + [Get(a, name)], Step(s, Get(a, name)))
  {
    var events := before + [Get(a, name)];
    assert events[..|before|] == before;
    var pool := s.available[NameOf(name)];
    assert pool[|pool| - 1] in pool;
    forall x ensures InterpreterOf(events, x) == InterpreterOf(before, x) {
      InterpreterStep(before, Get(a, name), s, x);
    }
    hide InterpreterOf, Run;
  }

  lemma ReleaseStaysSorted(before: seq<Event>, s: State, a: Activation, pooled: bool)
    requires IsSorted(before, s) && Run(before) == Some(s) && IsEnabled(s, Release(a, pooled))
    ensures IsSorted(before + [Release(a, pooled)], Step(s, Release(a, pooled)))
  {
    var events := before + [Release(a, pooled)];
    assert events[..|before|] == before;
    forall x ensures InterpreterOf(events, x) == InterpreterOf(before, x) {
      InterpreterStep(before, Release(a, pooled), s, x);
    }
    hide InterpreterOf, Run;
  }

  lemma {:induction false} RunIsSorted(events: seq<Event>)
    requires Run(events).Some?
    ensures IsSorted(events, Run(events).value)
    decreases |events|
  {
    if events != [] {
      var before, e := events[..|events| - 1], events[|events| - 1];
      assert events == before + [e];
      RunIsSorted(before);
      var s := Run(before).value;
      assert Run(events).value == Step(s, e) && IsEnabled(s, e);
      hide IsSorted, Step, Run, IsEnabled, Makes;
      match e
      case Get(a, name) =>
        if Makes(s, NameOf(name)) {
          MakeStaysSorted(before, s, a, name);
        } else {
          PopStaysSorted(before, s, a, name);
        }
      case Release(a, pooled) => ReleaseStaysSorted(before, s, a, pooled);
    }
  }

  /** In every run, a handler holds a thread state of the interpreter that it asked for, and of the main
      one only if it named this one or none. */
  lemma HoldsWhatItWanted(events: seq<Event>, a: Activation)
    requires Run(events).Some? && a in Run(events).value.held
    ensures LastWanted(events, a).Some?
    ensures InterpreterOf(events, Run(events).value.held[a].tstate) == LastWanted(events, a)
  {
    RunIsSorted(events);
  }

  /** A thread state that was released is the next one to be used, if its interpreter is asked for. */
  lemma ReleasedIsNextUsed(events: seq<Event>, a: Activation, b: Activation, name: Option<string>)
    requires Run(events).Some? && a in Run(events).value.held
    requires LastWanted(events, a) == Some(Wanted(name))
    requires Run(events + [Release(a, true)] + [Get(b, name)]).Some?
    ensures b in Run(events + [Release(a, true)] + [Get(b, name)]).value.held
    ensures Run(events + [Release(a, true)] + [Get(b, name)]).value.held[b].tstate == Run(events).value.held[a].tstate
  {
    RunIsSorted(events);
    var released := events + [Release(a, true)];
    var reused := released + [Get(b, name)];
    assert released[..|events|] == events && reused[..|released|] == released;
  }
}
