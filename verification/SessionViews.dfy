/** Locked sessions do not lose each other's updates. */
module SessionViews {
  import opened Optional
  import opened SessionLocks

  /** The handler saves and deletes its record only while it has the session locked. */
  predicate WritesLocked(s: State, r: Rid, step: Step)
    requires r < |s.reqs|
  {
    step.Use? && (step.op.Save? || step.op.Delete?) ==> s.reqs[r].locked
  }

  predicate IsWrite(op: Op) {
    op.Save? || op.Delete?
  }

  ghost predicate ViewOk(s: State, q: Request) {
    && ((q.pc.WantZero? || q.pc.InZero?) && IsWrite(q.pc.op) ==> q.locked)
    && (q.locked && q.sid.Some? && q.view.Some? ==>
          q.sid.value !in s.store || q.view.value == Some(s.store[q.sid.value]))
  }

  /** While a session is locked its record is the one last loaded or saved in that span, or it
      was removed by the cleanup. */
  ghost predicate ViewsOk(s: State) {
    forall r :: 0 <= r < |s.reqs| ==> ViewOk(s, s.reqs[r])
  }

  /** The step's own request. */
  lemma OwnViewKept(mutex: Sid -> nat, s: State, r: Rid, step: Step)
    requires Enabled(mutex, s, r, step) && WritesLocked(s, r, step)
    requires RequestOk(s.reqs[r]) && ViewOk(s, s.reqs[r])
    ensures ViewOk(Apply(mutex, s, r, step), Apply(mutex, s, r, step).reqs[r])
  {
    if step.Finish? {
    } else if step.AcquireKeyed? || step.RenewSid? || step.UserUnlock? || step.RunUnlock? {
    } else {
    }
  }

  /** What a step of another request may do to a record: only remove an expired one, unless it has the
      record's session locked. */
  lemma OtherStep(mutex: Sid -> nat, s: State, r: Rid, step: Step, t: Rid)
    requires Enabled(mutex, s, r, step) && ViewOk(s, s.reqs[r]) && t < |s.reqs| && t != r
    ensures |Apply(mutex, s, r, step).reqs| == |s.reqs|
    ensures var s' := Apply(mutex, s, r, step);
            && s'.reqs[t] == s.reqs[t]
            && forall sid :: sid in s'.store ==>
                 (s.reqs[r].locked && s.reqs[r].sid == Some(sid)) || (sid in s.store && s'.store[sid] == s.store[sid])
  {
    if step.Finish? {
    } else if step.AcquireKeyed? || step.RenewSid? || step.UserUnlock? || step.RunUnlock? {
    } else {
    }
  }

  lemma StepKeepsView(mutex: Sid -> nat, s: State, r: Rid, step: Step, t: Rid)
    requires Inv(mutex, s) && ViewsOk(s) && Enabled(mutex, s, r, step) && WritesLocked(s, r, step)
    requires t < |s.reqs|
    ensures |Apply(mutex, s, r, step).reqs| == |s.reqs|
    ensures ViewOk(Apply(mutex, s, r, step), Apply(mutex, s, r, step).reqs[t])
  {
    assert RequestOk(s.reqs[r]) && ViewOk(s, s.reqs[r]) && ViewOk(s, s.reqs[t]);
    if t == r {
      OwnViewKept(mutex, s, r, step);
      OnlyOwnRequest(mutex, s, r, step);
    } else {
      OtherStep(mutex, s, r, step, t);
      LockedApart(mutex, s, r, t);
      hide Apply, Enabled, Inv;
    }
  }

  lemma LockedApart(mutex: Sid -> nat, s: State, r: Rid, t: Rid)
    requires Inv(mutex, s) && r < |s.reqs| && t < |s.reqs| && r != t
    ensures s.reqs[r].locked && s.reqs[t].locked ==> s.reqs[r].sid != s.reqs[t].sid
  {
    if s.reqs[r].locked && s.reqs[t].locked {
      assert Holds(s, r, mutex(s.reqs[r].sid.value)) && Holds(s, t, mutex(s.reqs[t].sid.value));
    }
  }

  ghost predicate WritesAreLocked(mutex: Sid -> nat, s: State, moves: seq<Move>)
    requires IsRun(mutex, s, moves)
    decreases |moves|
  {
    moves != [] ==>
      && WritesLocked(s, moves[0].r, moves[0].step)
      && WritesAreLocked(mutex, Apply(mutex, s, moves[0].r, moves[0].step), moves[1..])
  }

  lemma {:induction false} RunKeepsViews(mutex: Sid -> nat, s: State, moves: seq<Move>)
    requires Keyed(mutex) && Inv(mutex, s) && ViewsOk(s)
    requires IsRun(mutex, s, moves) && WritesAreLocked(mutex, s, moves)
    ensures ViewsOk(After(mutex, s, moves)) && Inv(mutex, After(mutex, s, moves))
    decreases |moves|
  {
    hide Inv, ViewOk;
    if moves != [] {
      var (r, step) := (moves[0].r, moves[0].step);
      var s' := Apply(mutex, s, r, step);
      StepKeepsInv(mutex, s, r, step);
      forall t | 0 <= t < |s'.reqs| ensures ViewOk(s', s'.reqs[t]) {
        StepKeepsView(mutex, s, r, step, t);
      }
      RunKeepsViews(mutex, s', moves[1..]);
    }
  }

  /** No lost update: when a save that follows a load in the same locked span replaces a record,
      the record is the one this request loaded or saved last. */
  lemma SaveReplacesWhatWasLoaded(mutex: Sid -> nat, s0: State, moves: seq<Move>, r: Rid, found: bool, doomed: set<Sid>)
    requires Keyed(mutex) && Initial(s0) && IsRun(mutex, s0, moves) && WritesAreLocked(mutex, s0, moves)
    requires Enabled(mutex, After(mutex, s0, moves), r, Finish(found, doomed))
    requires After(mutex, s0, moves).reqs[r].pc.op.Save?
    ensures var s := After(mutex, s0, moves);
            var q := s.reqs[r];
            && q.locked
            && (q.view.Some? && q.sid.value in s.store ==> q.view.value == Some(s.store[q.sid.value]))
  {
    assert Inv(mutex, s0) && ViewsOk(s0);
    RunKeepsViews(mutex, s0, moves);
    assert ViewOk(After(mutex, s0, moves), After(mutex, s0, moves).reqs[r]);
  }
}
