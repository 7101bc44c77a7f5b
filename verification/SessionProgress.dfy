/** Progress of the session lock protocol: exactly when all requests can still finish. */
module SessionProgress {
  import opened Optional
  import opened SessionLocks

  /** A request waits for a keyed mutex while it has its session locked. */
  predicate SelfDeadlocked(q: Request) {
    q.pc.WantKeyed? && q.locked
  }

  ghost predicate Unblocked(s: State) {
    forall r :: 0 <= r < |s.reqs| ==> !SelfDeadlocked(s.reqs[r])
  }

  predicate AllDone(s: State) {
    forall r :: 0 <= r < |s.reqs| ==> s.reqs[r].pc == Done
  }

  /** How many steps a request has left at most if its handler does nothing more. */
  function Work(q: Request): nat {
    q.unlocks + (if q.dbmCleanup then 3 else 0) +
    match q.pc
    case Done => 0
    case Cleaning => 1
    case Ready => 2
    case InZero(op) => if op == DbmCleanup then 2 else if op == FirstLoad then 6 else 3
    case WantZero(op) => if op == DbmCleanup then 3 else if op == FirstLoad then 7 else 4
    case WantKeyed(loads) => if loads then 9 else 4
    case Renew => 5
    case Init => 10
  }

  function TotalWork(reqs: seq<Request>): nat {
    if reqs == [] then 0 else Work(reqs[0]) + TotalWork(reqs[1..])
  }

  lemma {:induction false} TotalWorkUpdate(reqs: seq<Request>, r: Rid, q: Request)
    requires r < |reqs|
    ensures TotalWork(reqs[r := q]) == TotalWork(reqs) - Work(reqs[r]) + Work(q)
    decreases |reqs|
  {
    if r == 0 {
      assert reqs[r := q][1..] == reqs[1..];
    } else {
      assert reqs[r := q][1..] == reqs[1..][r - 1 := q];
      TotalWorkUpdate(reqs[1..], r - 1, q);
    }
  }

  /** A step that brings a request nearer to its end, if it is not blocked. */
  function Forward(q: Request): Step {
    match q.pc
    case Init => Present(None, "")
    case WantKeyed(_) => AcquireKeyed
    case WantZero(_) => AcquireZero
    case InZero(_) => Finish(false, {})
    case Renew => RenewSid("")
    case Ready => EndHandler
    case Cleaning => if q.unlocks > 0 then RunUnlock else if q.dbmCleanup then RunDbmCleanup else EndRequest
    case Done => EndRequest
  }

  lemma ForwardReducesWork(mutex: Sid -> nat, s: State, r: Rid)
    requires r < |s.reqs| && Enabled(mutex, s, r, Forward(s.reqs[r]))
    requires RequestOk(s.reqs[r]) && !SelfDeadlocked(s.reqs[r])
    ensures |Apply(mutex, s, r, Forward(s.reqs[r])).reqs| == |s.reqs|
    ensures Work(Apply(mutex, s, r, Forward(s.reqs[r])).reqs[r]) < Work(s.reqs[r])
  {
    var step := Forward(s.reqs[r]);
    if step.AcquireKeyed? {
    } else if step.Finish? {
    } else if step.RenewSid? {
    } else if step.RunUnlock? {
    } else {
    }
  }

  lemma ForwardDecreases(mutex: Sid -> nat, s: State, r: Rid)
    requires r < |s.reqs| && Enabled(mutex, s, r, Forward(s.reqs[r]))
    requires RequestOk(s.reqs[r]) && !SelfDeadlocked(s.reqs[r])
    ensures TotalWork(Apply(mutex, s, r, Forward(s.reqs[r])).reqs) < TotalWork(s.reqs)
  {
    hide Work, Enabled, RequestOk, SelfDeadlocked;
    var s' := Apply(mutex, s, r, Forward(s.reqs[r]));
    OnlyOwnRequest(mutex, s, r, Forward(s.reqs[r]));
    ForwardReducesWork(mutex, s, r);
    TotalWorkUpdate(s.reqs, r, s'.reqs[r]);
  }

  lemma NoOwners(mutex: Sid -> nat, s: State)
    requires Inv(mutex, s) && 0 !in s.owner
    requires forall r :: 0 <= r < |s.reqs| ==> !s.reqs[r].locked
    ensures forall i :: i !in s.owner
  {
  }

  /** Unless all are done, some request that is not blocked can go on. */
  lemma SomeForward(mutex: Sid -> nat, s: State) returns (r: Rid)
    requires Keyed(mutex) && Inv(mutex, s) && Unblocked(s) && !AllDone(s)
    ensures r < |s.reqs| && s.reqs[r].pc != Done && Enabled(mutex, s, r, Forward(s.reqs[r]))
  {
    if 0 in s.owner {
      r := s.owner[0];
      assert Holds(s, r, 0);
      assert RequestOk(s.reqs[r]);
    } else if exists t :: 0 <= t < |s.reqs| && s.reqs[t].locked {
      r :| 0 <= r < |s.reqs| && s.reqs[r].locked;
      assert RequestOk(s.reqs[r]) && !SelfDeadlocked(s.reqs[r]);
      assert !Holds(s, r, 0);
    } else {
      r :| 0 <= r < |s.reqs| && s.reqs[r].pc != Done;
      assert RequestOk(s.reqs[r]);
      assert !Holds(s, r, 0);
      NoOwners(mutex, s);
    }
  }

  lemma {:induction false} RunToEnd(mutex: Sid -> nat, s: State) returns (moves: seq<Move>)
    requires Keyed(mutex) && Inv(mutex, s) && Unblocked(s)
    ensures IsRun(mutex, s, moves) && AllDone(After(mutex, s, moves))
    decreases TotalWork(s.reqs)
  {
    if AllDone(s) {
      return [];
    }
    var r := SomeForward(mutex, s);
    var step := Forward(s.reqs[r]);
    ForwardDecreases(mutex, s, r);
    StepKeepsUnblocked(mutex, s, r, step);
    StepKeepsInv(mutex, s, r, step);
    var rest := RunToEnd(mutex, Apply(mutex, s, r, step));
    moves := [Move(r, step)] + rest;
    assert moves[1..] == rest;
  }

  /** A request that locks twice waits for itself for ever, whatever the others do. */
  lemma {:induction false} SelfDeadlockLasts(mutex: Sid -> nat, s: State, r: Rid, moves: seq<Move>)
    requires Keyed(mutex) && Inv(mutex, s) && IsRun(mutex, s, moves)
    requires r < |s.reqs| && SelfDeadlocked(s.reqs[r])
    ensures var s' := After(mutex, s, moves);
            |s'.reqs| == |s.reqs| && SelfDeadlocked(s'.reqs[r])
    decreases |moves|
  {
    if moves != [] {
      var (t, step) := (moves[0].r, moves[0].step);
      var s' := Apply(mutex, s, t, step);
      assert Holds(s, r, mutex(s.reqs[r].sid.value));
      assert t != r;
      assert s'.reqs[r] == s.reqs[r];
      StepKeepsInv(mutex, s, t, step);
      SelfDeadlockLasts(mutex, s', r, moves[1..]);
    }
  }

  ghost predicate FinishesAll(mutex: Sid -> nat, s: State, more: seq<Move>) {
    IsRun(mutex, s, more) && AllDone(After(mutex, s, more))
  }

  /** From any state that any interleaving reaches, all requests can still finish exactly when
      none of them waits for a mutex it holds. */
  lemma AllCanFinishIff(mutex: Sid -> nat, s0: State, moves: seq<Move>)
    requires Keyed(mutex) && Initial(s0) && IsRun(mutex, s0, moves)
    ensures var s := After(mutex, s0, moves);
            Unblocked(s) <==> exists more: seq<Move> :: FinishesAll(mutex, s, more)
  {
    assert Inv(mutex, s0);
    RunKeepsInv(mutex, s0, moves);
    var s := After(mutex, s0, moves);
    if Unblocked(s) {
      var more := RunToEnd(mutex, s);
      assert FinishesAll(mutex, s, more);
    } else {
      var r :| 0 <= r < |s.reqs| && SelfDeadlocked(s.reqs[r]);
      forall more: seq<Move> ensures !FinishesAll(mutex, s, more) {
        if IsRun(mutex, s, more) {
          SelfDeadlockLasts(mutex, s, r, more);
        }
      }
    }
  }

  /** The handler locks a session only when it is not locked. */
  predicate LocksOnce(s: State, r: Rid, step: Step)
    requires r < |s.reqs|
  {
    step.UserLock? ==> !s.reqs[r].locked
  }

  /** No request comes to wait for itself unless its handler locks a locked session. */
  lemma StepKeepsUnblocked(mutex: Sid -> nat, s: State, r: Rid, step: Step)
    requires Inv(mutex, s) && Enabled(mutex, s, r, step) && Unblocked(s)
    ensures Unblocked(Apply(mutex, s, r, step)) <==> LocksOnce(s, r, step)
  {
    assert RequestOk(s.reqs[r]);
    var s' := Apply(mutex, s, r, step);
    assert forall t :: 0 <= t < |s.reqs| && t != r ==> s'.reqs[t] == s.reqs[t];
    if step.UserLock? && s.reqs[r].locked {
      assert SelfDeadlocked(s'.reqs[r]);
    } else {
      assert !SelfDeadlocked(s'.reqs[r]);
    }
  }
}
