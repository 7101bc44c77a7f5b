/** When a failed build of the file cache shows: which states lead to a lookup that returns old
    content. */
module FileStaleness {
  import opened FileCache
  import opened Optional

  /** A lookup can still get to the entry: the dictionary has it, or a thread does. */
  ghost predicate Live(s: State, id: Id)
    requires id < |s.entries|
  {
    || (s.entries[id].key in s.dict && s.dict[s.entries[id].key] == id)
    || exists t :: t in s.threads && s.threads[t] in {Got(id), Locked(id)}
  }

  /** What a step returns is what the file holds at that moment. */
  predicate ReturnsCurrent(s: State, step: Step)
    requires Enabled(s, step)
  {
    var r := Returned(s, step);
    r.Some? ==> r.value.0 in s.files && r.value.1 == s.files[r.value.0].content
  }

  /** A lookup can return old content without another build that fails in place. */
  ghost predicate CanReturnOld(s: State) {
    exists steps, next ::
      IsRun(s, steps) && BuildsSucceed(s, steps) && Enabled(After(s, steps), next)
      && !ReturnsCurrent(After(s, steps), next)
  }

  /** An outdated entry that a lookup can get to. */
  ghost predicate IsTrap(s: State, id: Id) {
    id < |s.entries| && Outdated(s, id) && Live(s, id)
  }

  /** A step brings back no entry. */
  lemma StepLive(s: State, step: Step, id: Id)
    requires WellFormed(s) && Enabled(s, step) && id < |s.entries| && Live(Apply(s, step), id)
    ensures Live(s, id)
  {
  }

  /** Only a build that fails in place sets a trap. */
  lemma StepSetsNoTrap(s: State, step: Step, id: Id)
    requires Sound(s) && Enabled(s, step) && !FailsInPlace(s, step) && IsTrap(Apply(s, step), id)
    ensures IsTrap(s, id)
  {
    StepSound(s, step);
    hide WellFormed, EntrySound, Enabled, FailsInPlace, Outdated, Live, Apply;
    assert EntryKept(s, step, id);
    StepLive(s, step, id);
  }

  /** In every run, failing builds included, the state is sound. */
  lemma {:induction false} RunIsSound(s: State, steps: seq<Step>)
    requires Sound(s) && IsRun(s, steps)
    ensures Sound(After(s, steps))
    decreases |steps|
  {
    hide Sound, Enabled, Apply;
    if steps != [] {
      StepSound(s, steps[0]);
      RunIsSound(Apply(s, steps[0]), steps[1..]);
    }
  }

  lemma {:induction false} RunSetsNoTrap(s: State, steps: seq<Step>, id: Id)
    requires Sound(s) && IsRun(s, steps) && BuildsSucceed(s, steps) && IsTrap(After(s, steps), id)
    ensures IsTrap(s, id)
    decreases |steps|
  {
    hide Sound, Enabled, Apply, FailsInPlace, IsTrap;
    if steps != [] {
      StepSound(s, steps[0]);
      RunSetsNoTrap(Apply(s, steps[0]), steps[1..], id);
      StepSetsNoTrap(s, steps[0], id);
    }
  }

  /** Old content comes out of a trap. */
  lemma OldIsTrapped(s: State, next: Step)
    requires Sound(s) && Enabled(s, next) && !ReturnsCurrent(s, next)
    ensures IsTrap(s, PcOf(s, next.t).id)
  {
    var id := PcOf(s, next.t).id;
    assert EntrySound(s, id);
    assert s.entries[id].owner == Some(next.t);
  }

  /** Some thread has not looked up anything. */
  lemma SomeIdle(threads: map<Thread, Pc>) returns (t: Thread)
    ensures t !in threads
  {
    var ts := threads.Keys;
    var bound: Thread := 0;
    while ts != {}
      invariant ts <= threads.Keys
      invariant forall u :: u in threads && u !in ts ==> u < bound
    {
      var u :| u in ts;
      ts := ts - {u};
      bound := if u < bound then bound else u + 1;
    }
    t := bound;
  }

  lemma CanAfter(s: State, step: Step)
    requires Enabled(s, step) && !FailsInPlace(s, step) && CanReturnOld(Apply(s, step))
    ensures CanReturnOld(s)
  {
    hide Enabled, Apply, FailsInPlace, ReturnsCurrent;
    var s1 := Apply(s, step);
    var steps, next :|
      IsRun(s1, steps) && BuildsSucceed(s1, steps) && Enabled(After(s1, steps), next)
      && !ReturnsCurrent(After(s1, steps), next);
    var all := [step] + steps;
    assert all[1..] == steps;
    assert After(s, all) == After(s1, steps);
  }

  lemma LockedReturns(s: State, t: Thread, id: Id)
    requires id < |s.entries| && Outdated(s, id) && PcOf(s, t) == Locked(id)
    ensures CanReturnOld(s)
  {
    var next := StatFresh(t);
    assert Enabled(s, next) && !ReturnsCurrent(s, next);
    assert After(s, []) == s && BuildsSucceed(s, []);
  }

  lemma GotReturns(s: State, t: Thread, id: Id)
    requires id < |s.entries| && Outdated(s, id) && PcOf(s, t) == Got(id) && s.entries[id].owner == None
    ensures CanReturnOld(s)
  {
    hide CanReturnOld;
    LockedReturns(Apply(s, Acquire(t)), t, id);
    CanAfter(s, Acquire(t));
  }

  lemma FoundReturns(s: State, id: Id)
    requires id < |s.entries| && Outdated(s, id) && s.entries[id].owner == None
    requires s.entries[id].key in s.dict && s.dict[s.entries[id].key] == id
    ensures CanReturnOld(s)
  {
    hide CanReturnOld;
    var t := SomeIdle(s.threads);
    var step := Lookup(t, s.entries[id].key);
    GotReturns(Apply(s, step), t, id);
    CanAfter(s, step);
  }

  /** A lookup that gets to an outdated entry takes its value for the file's content. */
  lemma TrapCloses(s: State, id: Id)
    requires Sound(s) && IsTrap(s, id)
    ensures CanReturnOld(s)
  {
    hide CanReturnOld;
    assert EntrySound(s, id);
    if s.entries[id].owner.Some? {
      LockedReturns(s, s.entries[id].owner.value, id);
    } else if t :| t in s.threads && s.threads[t] in {Got(id), Locked(id)} {
      if s.threads[t] == Got(id) {
        GotReturns(s, t, id);
      } else {
        LockedReturns(s, t, id);
      }
    } else {
      FoundReturns(s, id);
    }
  }

  /** In every sound state, whatever failed before, a lookup can return old content if and only if
      there is an outdated entry that it can get to. */
  lemma OldIsReturnedIff(s: State)
    requires Sound(s)
    ensures CanReturnOld(s) <==> exists id :: IsTrap(s, id)
  {
    hide Sound, IsTrap;
    if CanReturnOld(s) {
      var steps, next :|
        IsRun(s, steps) && BuildsSucceed(s, steps) && Enabled(After(s, steps), next)
        && !ReturnsCurrent(After(s, steps), next);
      RunIsSound(s, steps);
      var id := PcOf(After(s, steps), next.t).id;
      OldIsTrapped(After(s, steps), next);
      RunSetsNoTrap(s, steps, id);
    }
    if id :| IsTrap(s, id) {
      TrapCloses(s, id);
    }
  }

  lemma ReachableReturnsOldIff(steps: seq<Step>)
    requires IsRun(START, steps)
    ensures CanReturnOld(After(START, steps)) <==> exists id :: IsTrap(After(START, steps), id)
  {
    assert Sound(START);
    RunIsSound(START, steps);
    OldIsReturnedIff(After(START, steps));
  }

  /** From a coherent cache, a step makes a lookup of old content possible, without another such
      failure, if and only if it is a build that fails in place and the entry is still in the
      dictionary, or another thread has it already. */
  lemma FailureShowsIff(s: State, step: Step)
    requires Coherent(s) && Enabled(s, step)
    ensures CanReturnOld(Apply(s, step)) <==>
            && FailsInPlace(s, step)
            && var id := PcOf(s, step.t).id;
               || (s.entries[id].key in s.dict && s.dict[s.entries[id].key] == id)
               || exists u :: u != step.t && PcOf(s, u) == Got(id)
  {
    hide CanReturnOld, Outdated, Live;
    StepSound(s, step);
    OldIsReturnedIff(Apply(s, step));
    if FailsInPlace(s, step) {
      var id := PcOf(s, step.t).id;
      FailedIsOutdated(s, step);
      FailedIsLiveIff(s, step);
      assert forall i :: IsTrap(Apply(s, step), i) ==> EntryKept(s, step, i) && i == id;
      assert IsTrap(Apply(s, step), id) <==> Live(Apply(s, step), id);
    } else {
      assert forall i :: IsTrap(Apply(s, step), i) ==> EntryKept(s, step, i);
    }
  }

  /** The failing thread gives up the entry's lock, which no other one has. */
  lemma FailedIsLiveIff(s: State, step: Step)
    requires Sound(s) && Enabled(s, step) && FailsInPlace(s, step)
    ensures var id := PcOf(s, step.t).id;
            Live(Apply(s, step), id) <==>
            || (s.entries[id].key in s.dict && s.dict[s.entries[id].key] == id)
            || exists u :: u != step.t && PcOf(s, u) == Got(id)
  {
    var id := PcOf(s, step.t).id;
    var s1 := Apply(s, step);
    forall u | u in s1.threads && s1.threads[u] in {Got(id), Locked(id)}
      ensures u != step.t && PcOf(s, u) == Got(id)
    {
      assert s.entries[id].owner == Some(step.t);
    }
    forall u | u != step.t && PcOf(s, u) == Got(id)
      ensures u in s1.threads && s1.threads[u] == Got(id)
    {
    }
  }
}
