/** The file cache as steps of concurrent lookups, file changes and evictions
    (`Cache._checkitem`, `FileCache.check` and `FileCache.build`,
    lib/python/mod_python/cache.py). */
module FileCache {
  import opened Optional

  type Path = string
  type Thread = nat
  type Id = nat

  datatype File = File(mtime: int, content: string)

  /** An entry object: its key, what was built last, the time stamp noted for it and the
      thread that holds its lock. */
  datatype Entry = Entry(key: Path, value: Option<string>, stamp: int, owner: Option<Thread>)

  /** Where a thread stands in a lookup. */
  datatype Pc = Idle
              | Got(id: Id)      // it has an entry, not its lock
              | Locked(id: Id)   // before the modification time is read
              | Stale(id: Id)    // the new time is noted, the file is still to be read

  /** The file system with the modification times every file ever had, the entry objects, the
      dictionary and the threads. */
  datatype State = State(files: map<Path, File>, times: map<Path, set<int>>,
                         entries: seq<Entry>, dict: map<Path, Id>, threads: map<Thread, Pc>)

  datatype Step = Change(path: Path, file: File)
                | Remove(path: Path)
                | Evict(path: Path)
                | Lookup(t: Thread, path: Path)
                | Acquire(t: Thread)
                | StatMissing(t: Thread)
                | StatFresh(t: Thread)
                | StatStale(t: Thread)
                | Build(t: Thread)
                | BuildFails(t: Thread)

  function PcOf(s: State, t: Thread): Pc {
    if t in s.threads then s.threads[t] else Idle
  }

  predicate Holds(s: State, pc: Pc) {
    (pc.Locked? || pc.Stale?) && pc.id < |s.entries|
  }

  function EntryOf(s: State, t: Thread): Entry
    requires Holds(s, PcOf(s, t))
  {
    s.entries[PcOf(s, t).id]
  }

  function TimesOf(s: State, p: Path): set<int> {
    if p in s.times then s.times[p] else {}
  }

  predicate Enabled(s: State, step: Step) {
    match step
    case Change(p, file) => file.mtime !in TimesOf(s, p)
    case Remove(p) => p in s.files
    case Evict(p) => p in s.dict
    case Lookup(t, p) => PcOf(s, t) == Idle
    case Acquire(t) => PcOf(s, t).Got? && PcOf(s, t).id < |s.entries| && s.entries[PcOf(s, t).id].owner == None
    case StatMissing(t) => PcOf(s, t).Locked? && Holds(s, PcOf(s, t)) && EntryOf(s, t).key !in s.files
    case StatFresh(t) =>
      && PcOf(s, t).Locked? && Holds(s, PcOf(s, t))
      && EntryOf(s, t).key in s.files
      && EntryOf(s, t).value.Some? && EntryOf(s, t).stamp == s.files[EntryOf(s, t).key].mtime
    case StatStale(t) =>
      && PcOf(s, t).Locked? && Holds(s, PcOf(s, t))
      && EntryOf(s, t).key in s.files
      && !(EntryOf(s, t).value.Some? && EntryOf(s, t).stamp == s.files[EntryOf(s, t).key].mtime)
    case Build(t) => PcOf(s, t).Stale? && Holds(s, PcOf(s, t)) && EntryOf(s, t).key in s.files
    case BuildFails(t) => PcOf(s, t).Stale? && Holds(s, PcOf(s, t))
  }

  function SetPc(s: State, t: Thread, pc: Pc): State {
    s.(threads := s.threads[t := pc])
  }

  function SetEntry(s: State, id: Id, e: Entry): State
    requires id < |s.entries|
  {
    s.(entries := s.entries[id := e])
  }

  function Apply(s: State, step: Step): State
    requires Enabled(s, step)
  {
    match step
    case Change(p, file) =>
      s.(files := s.files[p := file], times := s.times[p := TimesOf(s, p) + {file.mtime}])
    case Remove(p) => s.(files := s.files - {p})
    case Evict(p) => s.(dict := s.dict - {p})
    case Lookup(t, p) =>
      if p in s.dict then SetPc(s, t, Got(s.dict[p]))
      else
        var id := |s.entries|;
        SetPc(s.(entries := s.entries + [Entry(p, None, 0, None)], dict := s.dict[p := id]), t, Got(id))
    case Acquire(t) =>
      var id := PcOf(s, t).id;
      SetPc(SetEntry(s, id, s.entries[id].(owner := Some(t))), t, Locked(id))
    case StatMissing(t) => Release(s, t, EntryOf(s, t))
    case StatFresh(t) => Release(s, t, EntryOf(s, t))
    case StatStale(t) =>
      var e := EntryOf(s, t);
      var id := PcOf(s, t).id;
      SetPc(SetEntry(s, id, e.(stamp := s.files[e.key].mtime)), t, Stale(id))
    case Build(t) =>
      var e := EntryOf(s, t);
      Release(s, t, e.(value := Some(s.files[e.key].content)))
    case BuildFails(t) => Release(s, t, EntryOf(s, t))
  }

  /** The thread stores the entry, gives up its lock and ends its lookup. */
  function Release(s: State, t: Thread, e: Entry): State
    requires Holds(s, PcOf(s, t))
  {
    SetPc(SetEntry(s, PcOf(s, t).id, e.(owner := None)), t, Idle)
  }

  /** What a step hands to the caller of a lookup: the value kept, or the one just built. */
  function Returned(s: State, step: Step): Option<(Path, string)>
    requires Enabled(s, step)
  {
    match step
    case StatFresh(t) => Some((EntryOf(s, t).key, EntryOf(s, t).value.value))
    case Build(t) => Some((EntryOf(s, t).key, s.files[EntryOf(s, t).key].content))
    case _ => None
  }

  /** A build that fails although the file is there, unchanged since its time was noted, and
      holds something else than the value kept. */
  predicate FailsInPlace(s: State, step: Step)
    requires Enabled(s, step)
  {
    step.BuildFails? &&
    var e := EntryOf(s, step.t);
    && e.value.Some? && e.key in s.files && s.files[e.key].mtime == e.stamp
    && e.value.value != s.files[e.key].content
  }

  predicate IsRun(s: State, steps: seq<Step>)
    decreases |steps|
  {
    steps != [] ==> Enabled(s, steps[0]) && IsRun(Apply(s, steps[0]), steps[1..])
  }

  function After(s: State, steps: seq<Step>): State
    requires IsRun(s, steps)
    decreases |steps|
  {
    if steps == [] then s else After(Apply(s, steps[0]), steps[1..])
  }

  const START: State := State(map[], map[], [], map[], map[])

  /** The lock's owner is where it holds the lock, and the noted time is one the file had. */
  ghost predicate EntrySound(s: State, id: Id)
    requires id < |s.entries|
  {
    var e := s.entries[id];
    && (e.owner.Some? ==> PcOf(s, e.owner.value) in {Locked(id), Stale(id)})
    && (e.value.Some? || (e.owner.Some? && PcOf(s, e.owner.value) == Stale(id)) ==> e.stamp in TimesOf(s, e.key))
  }

  /** The file still has the noted time, but holds something else than the value kept, and no thread
      is about to read it. */
  ghost predicate Outdated(s: State, id: Id)
    requires id < |s.entries|
  {
    var e := s.entries[id];
    && e.value.Some? && e.key in s.files && s.files[e.key].mtime == e.stamp
    && !(e.owner.Some? && PcOf(s, e.owner.value) == Stale(id))
    && e.value.value != s.files[e.key].content
  }

  /** Files, dictionary and locks fit together. */
  ghost predicate WellFormed(s: State) {
    && (forall p :: p in s.files ==> s.files[p].mtime in TimesOf(s, p))
    && (forall p :: p in s.dict ==> s.dict[p] < |s.entries| && s.entries[s.dict[p]].key == p)
    && (forall t :: t in s.threads && !s.threads[t].Idle? ==> s.threads[t].id < |s.entries|)
    && LocksHeld(s)
  }

  ghost predicate LocksHeld(s: State) {
    forall t :: t in s.threads && Holds(s, s.threads[t]) ==>
      s.entries[s.threads[t].id].owner == Some(t)
  }

  ghost predicate Sound(s: State) {
    && WellFormed(s)
    && (forall id :: 0 <= id < |s.entries| ==> EntrySound(s, id))
  }

  ghost predicate Coherent(s: State) {
    && Sound(s)
    && (forall id :: 0 <= id < |s.entries| ==> !Outdated(s, id))
  }

  lemma StepWellFormed(s: State, step: Step)
    requires WellFormed(s) && Enabled(s, step)
    ensures WellFormed(Apply(s, step))
  {
    StepLocksHeld(s, step);
    hide LocksHeld;
  }

  lemma StepLocksHeld(s: State, step: Step)
    requires WellFormed(s) && Enabled(s, step)
    ensures LocksHeld(Apply(s, step))
  {
    forall t | t in Apply(s, step).threads && Holds(Apply(s, step), Apply(s, step).threads[t])
      ensures Apply(s, step).entries[Apply(s, step).threads[t].id].owner == Some(t)
    {
    }
  }

  /** The entry stays sound, and is outdated by a build that fails in place only. */
  ghost predicate EntryKept(s: State, step: Step, id: Id)
    requires Enabled(s, step) && id < |Apply(s, step).entries|
  {
    && EntrySound(Apply(s, step), id)
    && (Outdated(Apply(s, step), id) ==> (FailsInPlace(s, step) && id == PcOf(s, step.t).id)
                                          || (id < |s.entries| && Outdated(s, id)))
  }

  /** Changing a file gives it a time it never had, so no entry is noted with it. */
  lemma FileStepSound(s: State, step: Step, id: Id)
    requires Sound(s) && Enabled(s, step) && (step.Change? || step.Remove? || step.Evict?)
    requires id < |Apply(s, step).entries|
    ensures EntryKept(s, step, id)
  {
    assert EntrySound(s, id);
  }

  lemma LookupStepSound(s: State, step: Step, id: Id)
    requires Sound(s) && Enabled(s, step) && (step.Lookup? || step.Acquire?)
    requires id < |Apply(s, step).entries|
    ensures EntryKept(s, step, id)
  {
    assert id < |s.entries| ==> EntrySound(s, id);
  }

  lemma LockedStepSound(s: State, step: Step, id: Id)
    requires Sound(s) && Enabled(s, step)
    requires step.StatMissing? || step.StatFresh? || step.StatStale? || step.Build? || step.BuildFails?
    requires id < |Apply(s, step).entries|
    ensures EntryKept(s, step, id)
  {
    var held := PcOf(s, step.t).id;
    assert s.entries[held].owner == Some(step.t);
    assert EntrySound(s, id);
    if id != held {
      assert s.entries[id].owner != Some(step.t);
    }
  }

  lemma StepSound(s: State, step: Step)
    requires Sound(s) && Enabled(s, step)
    ensures Sound(Apply(s, step))
    ensures forall id :: 0 <= id < |Apply(s, step).entries| ==> EntryKept(s, step, id)
  {
    hide WellFormed, EntrySound, Enabled, FailsInPlace, Outdated;
    StepWellFormed(s, step);
    forall id | 0 <= id < |Apply(s, step).entries|
      ensures EntryKept(s, step, id) && EntrySound(Apply(s, step), id)
    {
      match step
      case Change(_, _) => FileStepSound(s, step, id);
      case Remove(_) => FileStepSound(s, step, id);
      case Evict(_) => FileStepSound(s, step, id);
      case Lookup(_, _) => LookupStepSound(s, step, id);
      case Acquire(_) => LookupStepSound(s, step, id);
      case _ => LockedStepSound(s, step, id);
    }
  }

  lemma FailedIsOutdated(s: State, step: Step)
    requires Enabled(s, step) && FailsInPlace(s, step)
    ensures step.BuildFails? && Holds(s, PcOf(s, step.t)) && PcOf(s, step.t).id < |Apply(s, step).entries|
    ensures Outdated(Apply(s, step), PcOf(s, step.t).id)
  {
  }

  /** A step keeps the cache coherent exactly when it is no build that fails in place. */
  lemma StepCoherentIff(s: State, step: Step)
    requires Coherent(s) && Enabled(s, step)
    ensures Coherent(Apply(s, step)) <==> !FailsInPlace(s, step)
  {
    hide WellFormed, EntrySound, Enabled, FailsInPlace, Outdated, Apply;
    StepSound(s, step);
    if FailsInPlace(s, step) {
      FailedIsOutdated(s, step);
    } else {
      assert forall id :: 0 <= id < |Apply(s, step).entries| ==>
          EntryKept(s, step, id) && !Outdated(Apply(s, step), id);
    }
  }

  /** No build in the run fails in place. */
  ghost predicate BuildsSucceed(s: State, steps: seq<Step>)
    requires IsRun(s, steps)
    decreases |steps|
  {
    steps != [] ==> !FailsInPlace(s, steps[0]) && BuildsSucceed(Apply(s, steps[0]), steps[1..])
  }

  lemma {:induction false} RunCoherent(s: State, steps: seq<Step>)
    requires Coherent(s) && IsRun(s, steps) && BuildsSucceed(s, steps)
    ensures Coherent(After(s, steps))
    decreases |steps|
  {
    hide Coherent, Enabled, Apply, FailsInPlace;
    if steps != [] {
      StepCoherentIff(s, steps[0]);
      RunCoherent(Apply(s, steps[0]), steps[1..]);
    }
  }

  /** In every interleaving of lookups, file changes, removals and evictions, a lookup returns
      what the file holds at that moment. */
  lemma LookupsAreCurrent(steps: seq<Step>, next: Step)
    requires IsRun(START, steps) && BuildsSucceed(START, steps)
    requires Enabled(After(START, steps), next)
    ensures var s := After(START, steps);
            var r := Returned(s, next);
            r.Some? ==> r.value.0 in s.files && r.value.1 == s.files[r.value.0].content
  {
    assert Coherent(START);
    RunCoherent(START, steps);
    var s := After(START, steps);
    if next.StatFresh? {
      assert !Outdated(s, PcOf(s, next.t).id);
      assert EntryOf(s, next.t).owner == Some(next.t);
    }
  }

  lemma {:induction false} RunWellFormed(s: State, steps: seq<Step>)
    requires WellFormed(s) && IsRun(s, steps)
    ensures WellFormed(After(s, steps))
    decreases |steps|
  {
    hide WellFormed, Enabled, Apply;
    if steps != [] {
      StepWellFormed(s, steps[0]);
      RunWellFormed(Apply(s, steps[0]), steps[1..]);
    }
  }

  /** An entry's lock has at most one holder, whether or not builds fail. */
  lemma OneBuilder(steps: seq<Step>, t: Thread, u: Thread)
    requires IsRun(START, steps)
    ensures var s := After(START, steps);
            Holds(s, PcOf(s, t)) && Holds(s, PcOf(s, u)) && PcOf(s, t).id == PcOf(s, u).id ==> t == u
  {
    assert WellFormed(START);
    RunWellFormed(START, steps);
  }

  lemma {:induction false} Extend(s: State, steps: seq<Step>, step: Step)
    requires IsRun(s, steps) && Enabled(After(s, steps), step)
    ensures IsRun(s, steps + [step]) && After(s, steps + [step]) == Apply(After(s, steps), step)
    decreases |steps|
  {
    hide Enabled, Apply;
    if steps == [] {
      assert steps + [step] == [step] && [step][1..] == [];
    } else {
      assert (steps + [step])[1..] == steps[1..] + [step];
      Extend(Apply(s, steps[0]), steps[1..], step);
    }
  }

  /** One complete lookup of `f` by thread 0 that builds the value, up to the build itself. */
  lemma ReachBuild(steps: seq<Step>, file: File) returns (steps': seq<Step>)
    requires IsRun(START, steps)
    requires var s := After(START, steps);
             && PcOf(s, 0) == Idle && file.mtime !in TimesOf(s, "f")
             && ("f" in s.dict ==> s.dict["f"] == 0 && |s.entries| == 1 && s.entries[0].owner == None
                                   && s.entries[0].key == "f" && s.entries[0].stamp != file.mtime)
             && ("f" !in s.dict ==> s.entries == [])
    ensures IsRun(START, steps')
    ensures var (s, s') := (After(START, steps), After(START, steps'));
            && PcOf(s', 0) == Stale(0) && "f" in s'.dict && s'.dict["f"] == 0
            && s'.entries == [Entry("f", if s.entries == [] then None else s.entries[0].value,
                                    file.mtime, Some(0))]
            && "f" in s'.files && s'.files["f"] == file
            && TimesOf(s', "f") == TimesOf(s, "f") + {file.mtime}
  {
    hide IsRun, After;
    Extend(START, steps, Change("f", file));
    var steps1 := steps + [Change("f", file)];
    Extend(START, steps1, Lookup(0, "f"));
    var steps2 := steps1 + [Lookup(0, "f")];
    Extend(START, steps2, Acquire(0));
    var steps3 := steps2 + [Acquire(0)];
    Extend(START, steps3, StatStale(0));
    steps' := steps3 + [StatStale(0)];
  }

  /** The build fails, and another lookup finds the file unchanged. */
  lemma FailAndLookUp(steps: seq<Step>) returns (steps': seq<Step>)
    requires IsRun(START, steps)
    requires var s := After(START, steps);
             && PcOf(s, 0) == Stale(0) && s.entries == [Entry("f", Some("old"), 2, Some(0))]
             && "f" in s.dict && s.dict["f"] == 0 && "f" in s.files && s.files["f"] == File(2, "new")
    ensures IsRun(START, steps')
    ensures var s := After(START, steps');
            && PcOf(s, 0) == Locked(0) && s.entries == [Entry("f", Some("old"), 2, Some(0))]
            && "f" in s.files && s.files["f"] == File(2, "new")
  {
    hide IsRun, After;
    Extend(START, steps, BuildFails(0));
    var steps1 := steps + [BuildFails(0)];
    Extend(START, steps1, Lookup(0, "f"));
    var steps2 := steps1 + [Lookup(0, "f")];
    Extend(START, steps2, Acquire(0));
    steps' := steps2 + [Acquire(0)];
  }

  /** The file is built. */
  lemma BuildOld() returns (steps: seq<Step>)
    ensures IsRun(START, steps)
    ensures var s := After(START, steps);
            && PcOf(s, 0) == Idle && "f" in s.dict && s.dict["f"] == 0 && TimesOf(s, "f") == {1}
            && s.entries == [Entry("f", Some("old"), 1, None)]
  {
    assert After(START, []) == START;
    hide IsRun, After;
    steps := ReachBuild([], File(1, "old"));
    Extend(START, steps, Build(0));
    steps := steps + [Build(0)];
  }

  /** The new time is noted before the file is opened: when opening an unchanged file fails,
      the next lookup takes the old content for the new one. */
  lemma FailedBuildGoesStale() returns (steps: seq<Step>, next: Step)
    ensures IsRun(START, steps) && Enabled(After(START, steps), next)
    ensures var s := After(START, steps);
            && Returned(s, next) == Some(("f", "old"))
            && "f" in s.files && s.files["f"].content == "new"
  {
    hide IsRun, After;
    steps := BuildOld();
    steps := ReachBuild(steps, File(2, "new"));
    steps := FailAndLookUp(steps);
    next := StatFresh(0);
  }
}
