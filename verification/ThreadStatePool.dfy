/** The pools of Python thread states (src/mod_python.c). */
module ThreadStatePool {
  import opened Optional

  const MAIN_INTERPRETER := "main_interpreter"

  /** A handler that is running on a thread of the server.  One that redirects its request to another
      address runs that request's handlers on its own thread, one level deeper. */
  datatype Activation = Activation(thread: nat, depth: nat)

  /** A thread state of Python, by number. */
  type TState = nat

  /** What an activation holds: a thread state of a named interpreter. */
  datatype Held = Held(name: string, tstate: TState)

  /** The available thread states of each interpreter, what the activations hold, and the number of
      the next thread state to be made. */
  datatype State = State(available: map<string, seq<TState>>, held: map<Activation, Held>, next: TState)

  const INITIAL: State := State(map[MAIN_INTERPRETER := []], map[], 0)

  /** A thread state is released to its interpreter's pool, or deleted. */
  datatype Event = Get(who: Activation, name: Option<string>) | Release(who: Activation, pooled: bool)

  function Inner(a: Activation): Activation {
    Activation(a.thread, a.depth + 1)
  }

  /** A new activation gets an interpreter, directly inside the one that runs on its thread, if there
      is one; the innermost one of a thread releases its own. */
  predicate IsEnabled(s: State, e: Event) {
    match e
    case Get(a, _) => a !in s.held && (a.depth > 0 ==> Activation(a.thread, a.depth - 1) in s.held)
    case Release(a, _) => a in s.held && s.held[a].name in s.available && Inner(a) !in s.held
  }

  function NameOf(name: Option<string>): string {
    if name.Some? then name.value else MAIN_INTERPRETER
  }

  /** Whether getting an interpreter makes a thread state. */
  predicate Makes(s: State, name: string) {
    name !in s.available || s.available[name] == []
  }

  function Step(s: State, e: Event): State
    requires IsEnabled(s, e)
  {
    match e
    case Get(t, n) =>
      var name := NameOf(n);
      if Makes(s, name) then
        State(s.available[name := []], s.held[t := Held(name, s.next)], s.next + 1)
      else
        var pool := s.available[name];
        s.(available := s.available[name := pool[..|pool| - 1]],
           held := s.held[t := Held(name, pool[|pool| - 1])])
    case Release(t, pooled) =>
      var h := s.held[t];
      var pool := s.available[h.name] + if pooled then [h.tstate] else [];
      s.(available := s.available[h.name := pool], held := s.held - {t})
  }

  /** Only thread states that were made are held or pooled. */
  ghost predicate AllMade(s: State) {
    && (forall t :: t in s.held ==> s.held[t].name in s.available && s.held[t].tstate < s.next)
    && (forall n, x :: n in s.available && x in s.available[n] ==> x < s.next)
  }

  /** No thread state is held twice, or both held and pooled. */
  ghost predicate HeldOnce(s: State) {
    && (forall t, u :: t in s.held && u in s.held && t != u ==> s.held[t].tstate != s.held[u].tstate)
    && (forall t, n :: t in s.held && n in s.available ==> s.held[t].tstate !in s.available[n])
  }

  /** No thread state is pooled twice. */
  ghost predicate PooledOnce(s: State) {
    && (forall n, i, j :: n in s.available && 0 <= i < j < |s.available[n]| ==> s.available[n][i] != s.available[n][j])
    && (forall n, m, x :: n in s.available && m in s.available && n != m && x in s.available[n] ==>
          x !in s.available[m])
  }

  ghost predicate IsSafe(s: State) {
    AllMade(s) && HeldOnce(s) && PooledOnce(s)
  }

  lemma MakeKeepsSafe(s: State, t: Activation, name: Option<string>)
    requires IsSafe(s) && IsEnabled(s, Get(t, name)) && Makes(s, NameOf(name))
    ensures IsSafe(Step(s, Get(t, name)))
  {
  }

  lemma PopLast(pool: seq<TState>)
    requires pool != [] && forall i, j :: 0 <= i < j < |pool| ==> pool[i] != pool[j]
    ensures var left, last := pool[..|pool| - 1], pool[|pool| - 1];
            last in pool && last !in left && forall x :: x in left ==> x in pool
  {
  }

  lemma PopKeepsSafe(s: State, t: Activation, name: Option<string>)
    requires IsSafe(s) && IsEnabled(s, Get(t, name)) && !Makes(s, NameOf(name))
    ensures IsSafe(Step(s, Get(t, name)))
  {
    PopLast(s.available[NameOf(name)]);
    var s' := Step(s, Get(t, name));
    assert AllMade(s');
    assert HeldOnce(s') by {
      hide AllMade;
    }
    assert PooledOnce(s') by {
      hide AllMade, HeldOnce;
    }
  }

  lemma ReleaseKeepsSafe(s: State, t: Activation, pooled: bool)
    requires IsSafe(s) && IsEnabled(s, Release(t, pooled))
    ensures IsSafe(Step(s, Release(t, pooled)))
  {
  }

  lemma StepKeepsSafe(s: State, e: Event)
    requires IsSafe(s) && IsEnabled(s, e)
    ensures IsSafe(Step(s, e))
  {
    hide IsSafe;
    match e
    case Get(t, n) =>
      if Makes(s, NameOf(n)) {
        MakeKeepsSafe(s, t, n);
      } else {
        PopKeepsSafe(s, t, n);
      }
    case Release(t, pooled) =>
      assert t in s.held;
      ReleaseKeepsSafe(s, t, pooled);
  }

  /** An interpreter's data, as `interpreterdata`. */
  class InterpreterData {
    var tstates: seq<TState>

    constructor ()
      ensures tstates == []
    {
      tstates := [];
    }
  }

  class Server {
    var interpreters: map<string, InterpreterData>
    /** The thread state of each activation; that of the innermost one of a thread is current there. */
    var current: map<Activation, TState>
    var next: TState
    ghost var names: map<Activation, string>

    ghost predicate Valid()
      reads this, interpreters.Values
    {
      && names.Keys == current.Keys
      && (forall n, m :: n in interpreters && m in interpreters && n != m ==> interpreters[n] != interpreters[m])
    }

    ghost function View(): State
      requires Valid()
      reads this, interpreters.Values
    {
      State(Pools(), map t | t in current :: Held(names[t], current[t]), next)
    }

    ghost function Pools(): map<string, seq<TState>>
      reads `interpreters, interpreters.Values
    {
      map n | n in interpreters :: interpreters[n].tstates
    }

    constructor ()
      ensures Valid() && fresh(interpreters.Values) && View() == INITIAL
    {
      var idata := new InterpreterData();
      interpreters := map[MAIN_INTERPRETER := idata];
      current, next, names := map[], 0, map[];
    }

    /** The data of an interpreter, which is made if there is none, and a thread state: an available
        one, or a new one. */
    method TakeState(key: string) returns (idata: InterpreterData, tstate: TState)
      requires Valid()
      modifies `interpreters, `next, interpreters.Values
      ensures Valid() && key in interpreters && idata == interpreters[key]
      ensures fresh(interpreters.Values - old(interpreters.Values))
      ensures var pools := old(Pools());
              if key !in pools || pools[key] == [] then
                Pools() == pools[key := []] && tstate == old(next) && next == old(next) + 1
              else
                && Pools() == pools[key := pools[key][..|pools[key]| - 1]]
                && tstate == pools[key][|pools[key]| - 1] && next == old(next)
    {
      if key !in interpreters {
        tstate := next;
        next := next + 1;
        idata := new InterpreterData();
        interpreters := interpreters[key := idata];
      } else {
        idata := interpreters[key];
        if idata.tstates == [] {
          tstate := next;
          next := next + 1;
        } else {
          tstate := idata.tstates[|idata.tstates| - 1];
          idata.tstates := idata.tstates[..|idata.tstates| - 1];
        }
      }
    }

    /** `get_interpreter`, when its calls into Python succeed. */
    method GetInterpreter(who: Activation, name: Option<string>) returns (idata: InterpreterData)
      requires Valid() && IsEnabled(View(), Get(who, name))
      modifies this, interpreters.Values
      ensures Valid() && View() == Step(old(View()), Get(who, name))
      ensures NameOf(name) in interpreters && idata == interpreters[NameOf(name)]
      ensures fresh(interpreters.Values - old(interpreters.Values))
    {
      hide Pools;
      var tstate;
      idata, tstate := TakeState(NameOf(name));
      current := current[who := tstate];
      names := names[who := NameOf(name)];
    }

    /** `release_interpreter`, with the data of the interpreter that the activation got, or none. */
    method ReleaseInterpreter(who: Activation, idata: InterpreterData?)
      requires Valid() && IsEnabled(View(), Release(who, idata != null))
      requires idata != null ==> idata == interpreters[names[who]]
      modifies this, interpreters.Values
      ensures Valid() && View() == Step(old(View()), Release(who, idata != null))
      ensures interpreters == old(interpreters)
    {
      var tstate := current[who];
      if idata != null {
        idata.tstates := idata.tstates + [tstate];
      }
      assert idata == null ==> old(View()).available[names[who]] + [] == old(View()).available[names[who]];
      current := current - {who};
      names := names - {who};
    }
  }

  /** The state after events in an order in which they can happen. */
  function Run(events: seq<Event>): Option<State> {
    if events == [] then Some(INITIAL)
    else
      var last := events[|events| - 1];
      match Run(events[..|events| - 1])
      case None => None
      case Some(s) => if IsEnabled(s, last) then Some(Step(s, last)) else None
  }

  /** In every state of every run, no thread state is held twice, pooled twice, or both. */
  lemma {:induction false} RunIsSafe(events: seq<Event>)
    requires Run(events).Some?
    ensures IsSafe(Run(events).value)
  {
    if events != [] {
      var before := events[..|events| - 1];
      RunIsSafe(before);
      StepKeepsSafe(Run(before).value, events[|events| - 1]);
    }
  }

  /** The activations that hold a thread state of an interpreter. */
  function Holders(held: map<Activation, Held>, name: string): set<Activation> {
    set t | t in held && held[t].name == name
  }

  function PoolSize(s: State, name: string): nat {
    if name in s.available then |s.available[name]| else 0
  }

  /** How many thread states an event makes for an interpreter, or deletes. */
  function MadeBy(s: State, e: Event, name: string): nat {
    if e.Get? && NameOf(e.name) == name && Makes(s, name) then 1 else 0
  }

  function DeletedBy(s: State, e: Event, name: string): nat {
    if e.Release? && !e.pooled && e.who in s.held && s.held[e.who].name == name then 1 else 0
  }

  function Created(events: seq<Event>, name: string): nat {
    if events == [] then 0
    else
      var before, last := events[..|events| - 1], events[|events| - 1];
      Created(before, name) + if Run(before).Some? then MadeBy(Run(before).value, last, name) else 0
  }

  function Deleted(events: seq<Event>, name: string): nat {
    if events == [] then 0
    else
      var before, last := events[..|events| - 1], events[|events| - 1];
      Deleted(before, name) + if Run(before).Some? then DeletedBy(Run(before).value, last, name) else 0
  }

  /** The most activations that have held thread states of an interpreter at the same time. */
  function Peak(events: seq<Event>, name: string): nat {
    if events == [] then 0
    else
      var now := if Run(events).Some? then |Holders(Run(events).value.held, name)| else 0;
      var before := Peak(events[..|events| - 1], name);
      if now > before then now else before
  }

  lemma OneMoreHolder(held: map<Activation, Held>, t: Activation, h: Held, name: string)
    requires t !in held
    ensures |Holders(held[t := h], name)| == |Holders(held, name)| + if h.name == name then 1 else 0
  {
    assert Holders(held[t := h], name) == Holders(held, name) + if h.name == name then {t} else {};
  }

  lemma OneHolderLess(held: map<Activation, Held>, t: Activation, name: string)
    requires t in held
    ensures |Holders(held, name)| == |Holders(held - {t}, name)| + if held[t].name == name then 1 else 0
  {
    assert Holders(held, name) == Holders(held - {t}, name) + if held[t].name == name then {t} else {};
  }

  /** An event moves thread states between the activations and the pool, and makes one only when the
      pool is empty. */
  lemma StepCounts(s: State, e: Event, name: string)
    requires IsEnabled(s, e)
    ensures PoolSize(Step(s, e), name) + |Holders(Step(s, e).held, name)| + DeletedBy(s, e, name) ==
            PoolSize(s, name) + |Holders(s.held, name)| + MadeBy(s, e, name)
    ensures MadeBy(s, e, name) > 0 ==> PoolSize(s, name) == 0 && PoolSize(Step(s, e), name) == 0
  {
    hide Holders;
    match e
    case Get(t, n) => OneMoreHolder(s.held, t, Step(s, e).held[t], name);
    case Release(t, pooled) => OneHolderLess(s.held, t, name);
  }

  lemma {:induction false} RunCounts(events: seq<Event>, name: string)
    requires Run(events).Some?
    ensures var s := Run(events).value;
            && PoolSize(s, name) + |Holders(s.held, name)| + Deleted(events, name) == Created(events, name)
            && PoolSize(s, name) + |Holders(s.held, name)| <= Peak(events, name) <= Created(events, name)
  {
    if events == [] {
      assert Holders(INITIAL.held, name) == {};
    } else {
      var before, last := events[..|events| - 1], events[|events| - 1];
      var s := Run(before).value;
      RunCounts(before, name);
      StepCounts(s, last, name);
      assert Run(events).value == Step(s, last);
      hide Step, Holders, PoolSize, MadeBy, DeletedBy, IsEnabled;
    }
  }

  /** The number of thread states ever made for an interpreter is the most that were held at the
      same time, if none was deleted; and never exceeds that by more than were deleted. */
  lemma CreatedIsPeak(events: seq<Event>, name: string)
    requires Run(events).Some?
    ensures Peak(events, name) <= Created(events, name) <= Peak(events, name) + Deleted(events, name)
    ensures Deleted(events, name) == 0 ==> Created(events, name) == Peak(events, name)
  {
    RunCounts(events, name);
  }
}
