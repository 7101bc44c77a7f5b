/** Where a request stands follows from its own moves: what it has locked, what it does under mutex 0,
    and what its cleanups still have to do. */
module SessionMoves {
  import opened Optional
  import opened SessionLocks
  import opened SessionStore

  /** A request's last step. */
  function LastStep(moves: seq<Move>, r: Rid): Option<Step> {
    if moves == [] then None
    else if moves[|moves| - 1].r == r then Some(moves[|moves| - 1].step)
    else LastStep(moves[..|moves| - 1], r)
  }

  predicate IsUnlock(step: Step) {
    step.UserUnlock? || step.RunUnlock? || step.RenewSid?
  }

  /** Its session is locked: it took the mutex, and has not unlocked the session since. */
  predicate HasLocked(moves: seq<Move>, r: Rid) {
    moves != [] &&
    var (before, m) := (moves[..|moves| - 1], moves[|moves| - 1]);
    if m.r == r && m.step.AcquireKeyed? then true
    else if m.r == r && IsUnlock(m.step) then false
    else HasLocked(before, r)
  }

  /** How often it took a keyed mutex, and how many of the cleanups for that were run. */
  function LocksTaken(moves: seq<Move>, r: Rid): nat {
    if moves == [] then 0
    else
      LocksTaken(moves[..|moves| - 1], r)
      + if moves[|moves| - 1].r == r && moves[|moves| - 1].step.AcquireKeyed? then 1 else 0
  }

  function UnlocksRun(moves: seq<Move>, r: Rid): nat {
    if moves == [] then 0
    else
      UnlocksRun(moves[..|moves| - 1], r)
      + if moves[|moves| - 1].r == r && moves[|moves| - 1].step.RunUnlock? then 1 else 0
  }

  /** A cleanup of the session database is registered and was not run. */
  predicate HasDbmCleanup(moves: seq<Move>, r: Rid) {
    moves != [] &&
    var (before, m) := (moves[..|moves| - 1], moves[|moves| - 1]);
    if m.r == r && m.step.RegisterDbmCleanup? then true
    else if m.r == r && m.step.RunDbmCleanup? then false
    else HasDbmCleanup(before, r)
  }

  /** Where a request stands after its last step: every operation on the dbm files waits for mutex 0
      and is done while that is held. */
  predicate StandsAt(last: Option<Step>, cookie: bool, op: Option<Op>, pc: Pc) {
    match last
    case None => pc == Init
    case Some(Present(sid, _)) => pc == WantKeyed(sid.Some?)
    case Some(RenewSid(_)) => pc == WantKeyed(false)
    case Some(UserLock) => pc == WantKeyed(false)
    case Some(AcquireKeyed) => pc == if cookie then WantZero(FirstLoad) else Ready
    case Some(Use(op)) => pc == WantZero(op)
    case Some(RunDbmCleanup) => pc == WantZero(DbmCleanup)
    case Some(AcquireZero) => op.Some? && pc == InZero(op.value)
    case Some(Finish(_, _)) =>
      op.Some? && if op.value == DbmCleanup then pc == Cleaning
                  else pc == Ready || (pc == Renew && op.value == FirstLoad)
    case Some(UserUnlock) => pc == Ready
    case Some(RegisterDbmCleanup) => pc == Ready
    case Some(EndHandler) => pc == Cleaning
    case Some(RunUnlock) => pc == Cleaning
    case Some(EndRequest) => pc == Done
  }

  predicate IsLedTo(moves: seq<Move>, r: Rid, q: Request) {
    && StandsAt(LastStep(moves, r), AsksForCookie(moves, r), OpOf(moves, r), q.pc)
    && (q.locked <==> HasLocked(moves, r))
    && (q.dbmCleanup <==> HasDbmCleanup(moves, r))
    && q.unlocks + UnlocksRun(moves, r) == q.acquired == LocksTaken(moves, r)
  }

  lemma StandsStep(mutex: Sid -> nat, moves: seq<Move>, s: State, r: Rid, step: Step)
    requires Enabled(mutex, s, r, step) && RequestTracks(moves, r, s.reqs[r]) && IsLedTo(moves, r, s.reqs[r])
    ensures |Apply(mutex, s, r, step).reqs| == |s.reqs|
    ensures var all := moves + [Move(r, step)];
            StandsAt(LastStep(all, r), AsksForCookie(all, r), OpOf(all, r), Apply(mutex, s, r, step).reqs[r].pc)
  {
    OneMove(moves, Move(r, step));
    hide HasLocked, HasDbmCleanup, LocksTaken, UnlocksRun, SidOf;
    if step.Finish? {
    } else if step.AcquireKeyed? || step.RenewSid? || step.UserUnlock? || step.RunUnlock? {
    } else {
    }
  }

  lemma CountsStep(mutex: Sid -> nat, moves: seq<Move>, s: State, r: Rid, step: Step)
    requires Enabled(mutex, s, r, step) && IsLedTo(moves, r, s.reqs[r])
    ensures |Apply(mutex, s, r, step).reqs| == |s.reqs|
    ensures var all := moves + [Move(r, step)];
            var q := Apply(mutex, s, r, step).reqs[r];
            && (q.locked <==> HasLocked(all, r))
            && (q.dbmCleanup <==> HasDbmCleanup(all, r))
            && q.unlocks + UnlocksRun(all, r) == q.acquired == LocksTaken(all, r)
  {
    OneMove(moves, Move(r, step));
    hide StandsAt, SidOf, OpOf, AsksForCookie, LastStep;
    if step.Finish? {
    } else if step.AcquireKeyed? || step.RenewSid? || step.UserUnlock? || step.RunUnlock? {
    } else {
    }
  }

  lemma LedToStep(mutex: Sid -> nat, moves: seq<Move>, s: State, r: Rid, step: Step, t: Rid)
    requires Enabled(mutex, s, r, step) && r < |s.reqs| && t < |s.reqs|
    requires RequestTracks(moves, r, s.reqs[r]) && IsLedTo(moves, t, s.reqs[t])
    ensures |Apply(mutex, s, r, step).reqs| == |s.reqs|
    ensures IsLedTo(moves + [Move(r, step)], t, Apply(mutex, s, r, step).reqs[t])
  {
    OneMove(moves, Move(r, step));
    OnlyOwnRequest(mutex, s, r, step);
    if t == r {
      StandsStep(mutex, moves, s, r, step);
      CountsStep(mutex, moves, s, r, step);
      hide Apply, Enabled, StandsAt, HasLocked, HasDbmCleanup, LocksTaken, UnlocksRun, LastStep;
    } else {
      hide Apply, Enabled, StandsAt;
    }
  }

  lemma {:induction false} RunLedTo(mutex: Sid -> nat, s0: State, moves: seq<Move>, r: Rid)
    requires Initial(s0) && IsRun(mutex, s0, moves) && r < |s0.reqs|
    ensures |After(mutex, s0, moves).reqs| == |s0.reqs|
    ensures IsLedTo(moves, r, After(mutex, s0, moves).reqs[r])
    decreases |moves|
  {
    if moves != [] {
      var (before, m) := (moves[..|moves| - 1], moves[|moves| - 1]);
      assert moves == before + [m];
      hide IsRun, After, Enabled, Apply, IsLedTo, Initial, RequestTracks, Recorded;
      RunLast(mutex, s0, before, m);
      RunLedTo(mutex, s0, before, r);
      RunTracks(mutex, s0, before);
      var s := After(mutex, s0, before);
      EnabledIsRequest(mutex, s, m);
      LedToStep(mutex, before, s, m.r, m.step, r);
    }
  }

  /** In every interleaving, what a request's own moves were says where it stands, whether it has its
      session locked, and which cleanups are to be run: one unlock for each time it took the mutex. It
      holds the mutex of the session that it has locked and no other keyed one, and mutex 0 exactly
      during its operations. */
  lemma MovesLead(mutex: Sid -> nat, s0: State, moves: seq<Move>, r: Rid)
    requires Keyed(mutex) && Initial(s0) && IsRun(mutex, s0, moves) && r < |s0.reqs|
    ensures |After(mutex, s0, moves).reqs| == |s0.reqs|
    ensures var s := After(mutex, s0, moves);
            && StandsAt(LastStep(moves, r), AsksForCookie(moves, r), OpOf(moves, r), s.reqs[r].pc)
            && s.reqs[r].unlocks + UnlocksRun(moves, r) == LocksTaken(moves, r)
            && (s.reqs[r].dbmCleanup <==> HasDbmCleanup(moves, r))
            && (forall i :: i > 0 ==>
                  (Holds(s, r, i) <==>
                   HasLocked(moves, r) && SidOf(moves, r).Some? && mutex(SidOf(moves, r).value) == i))
            && (Holds(s, r, 0) <==> LastStep(moves, r) == Some(AcquireZero))
  {
    RunLedTo(mutex, s0, moves, r);
    assert Inv(mutex, s0);
    RunKeepsInv(mutex, s0, moves);
    RunTracks(mutex, s0, moves);
    hide IsRun, After, Initial, Keyed, Recorded, OpOf, AsksForCookie, HasLocked, HasDbmCleanup, LocksTaken, UnlocksRun,
      LastStep, SidOf;
    var s := After(mutex, s0, moves);
    assert RequestTracks(moves, r, s.reqs[r]) && IsLedTo(moves, r, s.reqs[r]);
    assert Holds(s, r, 0) <==> s.reqs[r].pc.InZero?;
  }
}
