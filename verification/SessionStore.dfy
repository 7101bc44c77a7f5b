/** What is in the session store after any run, and what the requests find there. */
module SessionStore {
  import opened Optional
  import opened SessionLocks

  /** The session that a request has after some moves: the one that its cookie names or that is made
      for it, or the one made when no record was found. */
  function SidOf(moves: seq<Move>, r: Rid): Option<Sid> {
    if moves == [] then None
    else
      var (before, m) := (moves[..|moves| - 1], moves[|moves| - 1]);
      if m.r != r then SidOf(before, r)
      else
        match m.step
        case Present(sid, newSid) => if sid.Some? then sid else Some(newSid)
        case RenewSid(newSid) => Some(newSid)
        case _ => SidOf(before, r)
  }

  /** The operation on the store that a request began last. */
  function OpOf(moves: seq<Move>, r: Rid): Option<Op> {
    if moves == [] then None
    else
      var (before, m) := (moves[..|moves| - 1], moves[|moves| - 1]);
      if m.r != r then OpOf(before, r)
      else
        match m.step
        case Use(op) => Some(op)
        case AcquireKeyed => Some(FirstLoad)
        case RunDbmCleanup => Some(DbmCleanup)
        case _ => OpOf(before, r)
  }

  /** The data last saved for a session, unless it was deleted or cleaned up later. */
  function Recorded(store: map<Sid, string>, moves: seq<Move>, sid: Sid): Option<string> {
    if moves == [] then
      if sid in store then Some(store[sid]) else None
    else
      var (before, m) := (moves[..|moves| - 1], moves[|moves| - 1]);
      if !m.step.Finish? || OpOf(before, m.r) == None then Recorded(store, before, sid)
      else
        match OpOf(before, m.r).value
        case Save(data) => if SidOf(before, m.r) == Some(sid) then Some(data) else Recorded(store, before, sid)
        case Delete => if SidOf(before, m.r) == Some(sid) then None else Recorded(store, before, sid)
        case DbmCleanup => if sid in m.step.doomed then None else Recorded(store, before, sid)
        case _ => Recorded(store, before, sid)
  }

  /** The mutex that a request asked for last is that of the session its cookie names. */
  predicate AsksForCookie(moves: seq<Move>, r: Rid) {
    moves != [] &&
    var (before, m) := (moves[..|moves| - 1], moves[|moves| - 1]);
    if m.r != r then AsksForCookie(before, r)
    else
      match m.step
      case Present(sid, _) => sid.Some?
      case RenewSid(_) => false
      case UserLock => false
      case _ => AsksForCookie(before, r)
  }

  /** The requests and the store are what the moves say. */
  ghost predicate Tracks(store: map<Sid, string>, moves: seq<Move>, s: State) {
    && (forall r :: 0 <= r < |s.reqs| ==> RequestTracks(moves, r, s.reqs[r]))
    && (forall sid :: Recorded(store, moves, sid) == if sid in s.store then Some(s.store[sid]) else None)
  }

  predicate RequestTracks(moves: seq<Move>, r: Rid, q: Request) {
    && q.sid == SidOf(moves, r)
    && (q.pc.WantKeyed? ==> q.pc.loads == AsksForCookie(moves, r))
    && (q.pc.WantZero? || q.pc.InZero? ==> OpOf(moves, r) == Some(q.pc.op))
  }

  lemma OneMove(moves: seq<Move>, m: Move)
    ensures (moves + [m])[..|moves + [m]| - 1] == moves && (moves + [m])[|moves + [m]| - 1] == m
  {
  }

  lemma RequestStep(mutex: Sid -> nat, moves: seq<Move>, s: State, r: Rid, step: Step, t: Rid)
    requires Enabled(mutex, s, r, step) && t < |s.reqs| && RequestTracks(moves, t, s.reqs[t])
    ensures |Apply(mutex, s, r, step).reqs| == |s.reqs|
    ensures RequestTracks(moves + [Move(r, step)], t, Apply(mutex, s, r, step).reqs[t])
  {
    OneMove(moves, Move(r, step));
    OnlyOwnRequest(mutex, s, r, step);
    if t == r {
      OwnRequestStep(mutex, moves, s, r, step);
    } else {
      hide Apply, Enabled;
    }
  }

  lemma OwnRequestStep(mutex: Sid -> nat, moves: seq<Move>, s: State, r: Rid, step: Step)
    requires Enabled(mutex, s, r, step) && RequestTracks(moves, r, s.reqs[r])
    ensures |Apply(mutex, s, r, step).reqs| == |s.reqs|
    ensures RequestTracks(moves + [Move(r, step)], r, Apply(mutex, s, r, step).reqs[r])
  {
    OneMove(moves, Move(r, step));
    if step.Finish? {
    } else if step.AcquireKeyed? || step.RenewSid? || step.UserUnlock? || step.RunUnlock? {
    } else {
    }
  }

  lemma StoreStep(mutex: Sid -> nat, store: map<Sid, string>, moves: seq<Move>, s: State, r: Rid, step: Step, sid: Sid)
    requires Enabled(mutex, s, r, step) && RequestTracks(moves, r, s.reqs[r])
    requires Recorded(store, moves, sid) == if sid in s.store then Some(s.store[sid]) else None
    ensures var s' := Apply(mutex, s, r, step);
            Recorded(store, moves + [Move(r, step)], sid) == if sid in s'.store then Some(s'.store[sid]) else None
  {
    OneMove(moves, Move(r, step));
    if step.Finish? {
      hide SidOf, OpOf;
    } else {
      hide Recorded;
    }
  }

  /** The last move of a run, and the run before it. */
  lemma {:induction false} RunLast(mutex: Sid -> nat, s: State, moves: seq<Move>, m: Move)
    ensures IsRun(mutex, s, moves + [m]) ==>
              && IsRun(mutex, s, moves) && Enabled(mutex, After(mutex, s, moves), m.r, m.step)
              && After(mutex, s, moves + [m]) == Apply(mutex, After(mutex, s, moves), m.r, m.step)
    decreases |moves|
  {
    hide Enabled, Apply;
    if moves == [] {
      assert [] + [m] == [m] && [m][1..] == [];
    } else {
      assert (moves + [m])[0] == moves[0] && (moves + [m])[1..] == moves[1..] + [m];
      if Enabled(mutex, s, moves[0].r, moves[0].step) {
        RunLast(mutex, Apply(mutex, s, moves[0].r, moves[0].step), moves[1..], m);
      }
    }
  }

  lemma TracksStep(mutex: Sid -> nat, store: map<Sid, string>, moves: seq<Move>, s: State, m: Move)
    requires Tracks(store, moves, s) && Enabled(mutex, s, m.r, m.step)
    ensures Tracks(store, moves + [m], Apply(mutex, s, m.r, m.step))
  {
    hide Enabled, Apply, RequestTracks, Recorded;
    assert m.r < |s.reqs| by { EnabledIsRequest(mutex, s, m); }
    var s' := Apply(mutex, s, m.r, m.step);
    OnlyOwnRequest(mutex, s, m.r, m.step);
    forall r | 0 <= r < |s'.reqs| ensures RequestTracks(moves + [m], r, s'.reqs[r]) {
      RequestStep(mutex, moves, s, m.r, m.step, r);
    }
    forall sid ensures Recorded(store, moves + [m], sid) == if sid in s'.store then Some(s'.store[sid]) else None {
      StoreStep(mutex, store, moves, s, m.r, m.step, sid);
    }
  }

  lemma EnabledIsRequest(mutex: Sid -> nat, s: State, m: Move)
    requires Enabled(mutex, s, m.r, m.step)
    ensures m.r < |s.reqs|
  {
  }

  lemma {:induction false} RunTracks(mutex: Sid -> nat, s0: State, moves: seq<Move>)
    requires Initial(s0) && IsRun(mutex, s0, moves)
    ensures Tracks(s0.store, moves, After(mutex, s0, moves))
    decreases |moves|
  {
    if moves != [] {
      var (before, m) := (moves[..|moves| - 1], moves[|moves| - 1]);
      assert moves == before + [m];
      hide IsRun, After, Enabled, Apply, Tracks;
      RunLast(mutex, s0, before, m);
      RunTracks(mutex, s0, before);
      TracksStep(mutex, s0.store, before, After(mutex, s0, before), m);
    }
  }

  /** After every run, what is stored for a session is what was last saved for it. */
  lemma StoreIsLastSaved(mutex: Sid -> nat, s0: State, moves: seq<Move>, sid: Sid)
    requires Initial(s0) && IsRun(mutex, s0, moves)
    ensures var store := After(mutex, s0, moves).store;
            Recorded(s0.store, moves, sid) == if sid in store then Some(store[sid]) else None
  {
    hide Recorded, IsRun, After, Initial, RequestTracks;
    RunTracks(mutex, s0, moves);
  }

  /** A load that ends after any run gives the request what was last saved for its session. A first load
      makes the session ready if there is such a record, not expired, and has it renewed otherwise. */
  lemma LoadFindsRecorded(mutex: Sid -> nat, s0: State, moves: seq<Move>, r: Rid, found: bool, doomed: set<Sid>)
    requires Initial(s0) && IsRun(mutex, s0, moves)
    requires Enabled(mutex, After(mutex, s0, moves), r, Finish(found, doomed))
    requires OpOf(moves, r) == Some(Load) || OpOf(moves, r) == Some(FirstLoad)
    ensures SidOf(moves, r).Some?
    ensures var q := Apply(mutex, After(mutex, s0, moves), r, Finish(found, doomed)).reqs[r];
            var record := Recorded(s0.store, moves, SidOf(moves, r).value);
            && q.view == Some(record)
            && (OpOf(moves, r) == Some(Load) ==> q.pc == Ready)
            && (OpOf(moves, r) == Some(FirstLoad) ==> q.pc == if found && record.Some? then Ready else Renew)
  {
    hide Recorded, IsRun, After, Initial, SidOf, OpOf;
    RunTracks(mutex, s0, moves);
    var s := After(mutex, s0, moves);
    assert RequestTracks(moves, r, s.reqs[r]);
  }
}
