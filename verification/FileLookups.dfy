/** Lookups of the file cache answer what was asked: the file, and without reading it again while it
    does not change; and they give up their locks. */
module FileLookups {
  import opened FileCache
  import opened FileStaleness
  import opened Optional

  /** The path of a thread's last lookup. */
  function LastAsked(steps: seq<Step>, t: Thread): Option<Path> {
    if steps == [] then None
    else
      match steps[|steps| - 1]
      case Lookup(u, p) => if u == t then Some(p) else LastAsked(steps[..|steps| - 1], t)
      case _ => LastAsked(steps[..|steps| - 1], t)
  }

  /** The entry that a thread has is one of the path it asked for. */
  ghost predicate HasAsked(steps: seq<Step>, s: State, t: Thread) {
    PcOf(s, t).Idle? || (PcOf(s, t).id < |s.entries| && LastAsked(steps, t) == Some(s.entries[PcOf(s, t).id].key))
  }

  lemma {:induction false} RunLast(s: State, steps: seq<Step>, step: Step)
    requires IsRun(s, steps + [step])
    ensures IsRun(s, steps) && Enabled(After(s, steps), step)
    ensures After(s, steps + [step]) == Apply(After(s, steps), step)
    decreases |steps|
  {
    hide Enabled, Apply;
    if steps == [] {
      assert [] + [step] == [step] && [step][1..] == [];
    } else {
      assert (steps + [step])[0] == steps[0] && (steps + [step])[1..] == steps[1..] + [step];
      RunLast(Apply(s, steps[0]), steps[1..], step);
    }
  }

  lemma StepHasAsked(steps: seq<Step>, s: State, step: Step, t: Thread)
    requires WellFormed(s) && Enabled(s, step) && HasAsked(steps, s, t)
    ensures HasAsked(steps + [step], Apply(s, step), t)
  {
    assert (steps + [step])[..|steps|] == steps;
    hide LocksHeld;
    if step.Lookup? {
    } else if step.Acquire? {
    } else if step.Change? || step.Remove? || step.Evict? {
    } else {
    }
  }

  lemma {:induction false} RunHasAsked(steps: seq<Step>, t: Thread)
    requires IsRun(START, steps)
    ensures WellFormed(After(START, steps)) && HasAsked(steps, After(START, steps), t)
    decreases |steps|
  {
    if steps != [] {
      var (before, step) := (steps[..|steps| - 1], steps[|steps| - 1]);
      assert steps == before + [step];
      hide IsRun, After, WellFormed, HasAsked, Enabled, Apply;
      RunLast(START, before, step);
      RunHasAsked(before, t);
      StepWellFormed(After(START, before), step);
      StepHasAsked(before, After(START, before), step, t);
    }
  }

  /** In every run, failing builds included, a lookup returns the path it was called with; and if no
      build fails in place, what the file of this path holds at that moment. */
  lemma LookupsReturnTheirFile(steps: seq<Step>, next: Step)
    requires IsRun(START, steps) && Enabled(After(START, steps), next)
    ensures next.StatFresh? || next.Build? <==> Returned(After(START, steps), next).Some?
    ensures next.StatFresh? || next.Build? ==>
              var s := After(START, steps);
              var r := Returned(s, next).value;
              && LastAsked(steps, next.t) == Some(r.0)
              && (BuildsSucceed(START, steps) ==> r.0 in s.files && r.1 == s.files[r.0].content)
  {
    hide LastAsked;
    if next.StatFresh? || next.Build? {
      RunHasAsked(steps, next.t);
      if BuildsSucceed(START, steps) {
        LookupsAreCurrent(steps, next);
      }
    }
  }

  /** The dictionary's entry is the only one of `p`. */
  ghost predicate OneEntry(s: State, p: Path) {
    forall id :: 0 <= id < |s.entries| && s.entries[id].key == p ==> p in s.dict && s.dict[p] == id
  }

  /** The file's present time is noted there, and what it holds was read or is about to be. */
  ghost predicate Noted(s: State, p: Path) {
    && p in s.dict && s.dict[p] < |s.entries| && p in s.files && s.entries[s.dict[p]].stamp == s.files[p].mtime
    && (s.entries[s.dict[p]].value.Some? || BeingRead(s, s.dict[p]))
  }

  predicate BeingRead(s: State, id: Id)
    requires id < |s.entries|
  {
    s.entries[id].owner.Some? && PcOf(s, s.entries[id].owner.value) == Stale(id)
  }

  predicate Touches(step: Step, p: Path) {
    match step
    case Change(q, _) => q == p
    case Remove(q) => q == p
    case _ => false
  }

  lemma StepOneEntry(s: State, step: Step, p: Path)
    requires WellFormed(s) && Enabled(s, step) && OneEntry(s, p) && step != Evict(p)
    ensures OneEntry(Apply(s, step), p)
  {
    hide LocksHeld;
  }

  lemma {:induction false} RunOneEntry(steps: seq<Step>, p: Path)
    requires IsRun(START, steps) && Evict(p) !in steps
    ensures OneEntry(After(START, steps), p)
    decreases |steps|
  {
    if steps != [] {
      var (before, step) := (steps[..|steps| - 1], steps[|steps| - 1]);
      assert steps == before + [step];
      hide IsRun, After, WellFormed, OneEntry, Enabled, Apply;
      RunLast(START, before, step);
      RunOneEntry(before, p);
      RunHasAsked(before, 0);
      StepOneEntry(After(START, before), step, p);
    }
  }

  lemma StepNoted(s: State, step: Step, p: Path)
    requires WellFormed(s) && Enabled(s, step) && Noted(s, p)
    requires step != Evict(p) && !Touches(step, p)
    requires step.BuildFails? ==> EntryOf(s, step.t).key != p
    ensures Noted(Apply(s, step), p)
  {
    var held := s.entries[s.dict[p]].owner;
    if step.Lookup? || step.Acquire? {
    } else if step.Change? || step.Remove? || step.Evict? {
    } else {
      assert s.entries[PcOf(s, step.t).id].owner == Some(step.t);
      if PcOf(s, step.t).id == s.dict[p] {
      } else {
        assert held != Some(step.t) || !BeingRead(s, s.dict[p]);
      }
    }
  }

  lemma StaleIsNoted(s: State, step: Step, p: Path)
    requires WellFormed(s) && Enabled(s, step) && step.StatStale? && EntryOf(s, step.t).key == p && OneEntry(s, p)
    ensures Noted(Apply(s, step), p)
  {
    assert s.entries[PcOf(s, step.t).id].owner == Some(step.t);
  }

  lemma NotedIsNotStale(s: State, step: Step, p: Path)
    requires WellFormed(s) && Enabled(s, step) && step.StatStale? && Noted(s, p) && OneEntry(s, p)
    ensures EntryOf(s, step.t).key != p
  {
    assert s.entries[PcOf(s, step.t).id].owner == Some(step.t);
  }

  /** At `k` the file `p` is found changed; from then on it is not changed or removed and not failed to
      be opened, and it is never evicted. */
  ghost predicate IsFoundStale(steps: seq<Step>, k: nat, p: Path) {
    && k < |steps| && steps[k].StatStale? && LastAsked(steps[..k], steps[k].t) == Some(p)
    && Evict(p) !in steps
    && forall j :: k < j < |steps| ==>
         !Touches(steps[j], p) && (steps[j].BuildFails? ==> LastAsked(steps[..j], steps[j].t) != Some(p))
  }

  lemma {:induction false} RunNoted(steps: seq<Step>, k: nat, p: Path)
    requires IsRun(START, steps) && IsFoundStale(steps, k, p)
    ensures Noted(After(START, steps), p)
    decreases |steps|
  {
    var (before, step) := (steps[..|steps| - 1], steps[|steps| - 1]);
    assert steps == before + [step];
    RunLast(START, before, step);
    var s := After(START, before);
    hide IsRun, After, WellFormed, Apply, Noted, OneEntry, LastAsked;
    if step.StatStale? || step.BuildFails? {
      RunHasAsked(before, step.t);
    } else {
      RunHasAsked(before, 0);
    }
    if k == |before| {
      RunOneEntry(before, p);
      StaleIsNoted(s, step, p);
    } else {
      hide Enabled;
      assert forall j :: 0 <= j < |before| ==> before[..j] == steps[..j];
      RunNoted(before, k, p);
      FailingEntry(s, step);
      StepNoted(s, step, p);
    }
  }

  lemma FailingEntry(s: State, step: Step)
    requires Enabled(s, step)
    ensures step.BuildFails? ==> Holds(s, PcOf(s, step.t))
  {
  }

  /** A file that is found changed is not found changed again, and so is read once, before it changes
      again, is evicted or cannot be opened. */
  lemma UnchangedIsReadOnce(steps: seq<Step>, k: nat, p: Path, next: Step)
    requires IsRun(START, steps) && IsFoundStale(steps, k, p)
    requires Enabled(After(START, steps), next) && next.StatStale?
    ensures LastAsked(steps, next.t) != Some(p)
  {
    hide LastAsked, IsRun, After, WellFormed, Noted, OneEntry;
    RunNoted(steps, k, p);
    RunOneEntry(steps, p);
    RunHasAsked(steps, next.t);
    if EntryOf(After(START, steps), next.t).key == p {
      NotedIsNotStale(After(START, steps), next, p);
    }
  }

  predicate IsBy(step: Step, t: Thread) {
    match step
    case Change(_, _) => false
    case Remove(_) => false
    case Evict(_) => false
    case _ => step.t == t
  }

  function LastStep(steps: seq<Step>, t: Thread): Option<Step> {
    if steps == [] then None
    else if IsBy(steps[|steps| - 1], t) then Some(steps[|steps| - 1])
    else LastStep(steps[..|steps| - 1], t)
  }

  /** Where a thread stands after its last step. */
  predicate StandsAt(last: Option<Step>, pc: Pc) {
    match last
    case Some(Lookup(_, _)) => pc.Got?
    case Some(Acquire(_)) => pc.Locked?
    case Some(StatStale(_)) => pc.Stale?
    case _ => pc.Idle?
  }

  lemma StepStands(steps: seq<Step>, s: State, step: Step, t: Thread)
    requires Enabled(s, step) && StandsAt(LastStep(steps, t), PcOf(s, t))
    ensures StandsAt(LastStep(steps + [step], t), PcOf(Apply(s, step), t))
  {
    assert (steps + [step])[..|steps|] == steps;
    if step.Lookup? || step.Acquire? {
    } else if step.Change? || step.Remove? || step.Evict? {
    } else {
    }
  }

  lemma {:induction false} RunStands(steps: seq<Step>, t: Thread)
    requires IsRun(START, steps)
    ensures StandsAt(LastStep(steps, t), PcOf(After(START, steps), t))
    decreases |steps|
  {
    if steps != [] {
      var (before, step) := (steps[..|steps| - 1], steps[|steps| - 1]);
      assert steps == before + [step];
      hide IsRun, After, StandsAt, Enabled, Apply;
      RunLast(START, before, step);
      RunStands(before, t);
      StepStands(before, After(START, before), step, t);
    }
  }

  lemma OwnerIff(s: State, t: Thread, id: Id)
    requires Sound(s) && id < |s.entries|
    ensures s.entries[id].owner == Some(t) <==> PcOf(s, t) == Locked(id) || PcOf(s, t) == Stale(id)
  {
    assert EntrySound(s, id);
    if t in s.threads && Holds(s, s.threads[t]) {
      assert s.entries[s.threads[t].id].owner == Some(t);
    }
  }

  /** In every run, a thread holds a lock exactly from the step that acquires it to the one that ends the
      lookup: that finds the file missing or unchanged, or has read it or failed to. It is the lock of the
      entry that it was given, for the path that it asked for. */
  lemma LocksEndWithLookups(steps: seq<Step>, t: Thread)
    requires IsRun(START, steps)
    ensures var s := After(START, steps);
            var last := LastStep(steps, t);
            && StandsAt(last, PcOf(s, t))
            && ((exists id :: 0 <= id < |s.entries| && s.entries[id].owner == Some(t)) <==>
                last.Some? && (last.value.Acquire? || last.value.StatStale?))
            && (forall id :: 0 <= id < |s.entries| && s.entries[id].owner == Some(t) ==>
                  LastAsked(steps, t) == Some(s.entries[id].key))
  {
    assert Sound(START);
    RunIsSound(START, steps);
    RunStands(steps, t);
    RunHasAsked(steps, t);
    hide IsRun, After, LastStep, LastAsked;
    var s := After(START, steps);
    forall id | 0 <= id < |s.entries|
      ensures s.entries[id].owner == Some(t) <==> PcOf(s, t) == Locked(id) || PcOf(s, t) == Stale(id)
    {
      OwnerIff(s, t, id);
    }
  }
}
