/** Sessions of concurrent requests, the global mutexes they take and the shared store
    (`BaseSession`, `DbmSession` and `dbm_cleanup`, lib/python/mod_python/Session.py;
    `dbm_cache_get` and `dbm_cache_store`, lib/python/mod_python/psp.py). */
module SessionLocks {
  import opened LockIndex
  import opened Optional

  type Sid = string
  type Rid = nat

  /** What is done under mutex 0, which guards the dbm files. */
  datatype Op = FirstLoad | Load | Save(data: string) | Delete | DbmCleanup | PspCache

  datatype Pc = Init              // the session object is being made
              | WantKeyed(loads: bool) // in the keyed lock call; whether a first load follows
              | WantZero(op: Op)  // in the lock call for mutex 0
              | InZero(op: Op)    // holding it
              | Renew             // the first load found nothing
              | Ready             // in the handler
              | Cleaning          // the request's cleanups are run
              | Done

  /** A request with one session that uses locking: `locked` and `sid` are the session's
      fields, `unlocks` and `dbmCleanup` the cleanups registered, `view` what the request knows
      of its record since it took the lock. */
  datatype Request = Request(pc: Pc, sid: Option<Sid>, locked: bool, unlocks: nat, dbmCleanup: bool,
                             acquired: nat, released: nat, view: Option<Option<string>>)

  datatype State = State(reqs: seq<Request>, owner: map<nat, Rid>, store: map<Sid, string>)

  datatype Step = Present(sid: Option<Sid>, newSid: Sid)
                | AcquireKeyed
                | AcquireZero
                | Finish(found: bool, doomed: set<Sid>) // the operation under mutex 0
                | RenewSid(newSid: Sid)
                | UserLock
                | UserUnlock
                | Use(op: Op)
                | RegisterDbmCleanup
                | EndHandler
                | RunUnlock
                | RunDbmCleanup
                | EndRequest

  function Get(store: map<Sid, string>, sid: Sid): Option<string> {
    if sid in store then Some(store[sid]) else None
  }

  /** The mutexes of the keys, `hash` being Python's hash: one that is not taken for an error leads to
      a keyed mutex, the least 32-bit hash only if the number of these divides it. */
  function MutexOf(hash: int, nlocks: nat): (i: nat)
    requires nlocks >= 2 && ToInt32(hash) != -1
    requires ToInt32(hash) == INT_MIN ==> 0x8000_0000 % (nlocks - 1) == 0
    ensures 1 <= i < nlocks
  {
    KeyedIndexInRangeIff(hash, nlocks);
    KeyedIndex(hash, nlocks).index
  }

  /** Every session id has a keyed mutex. */
  ghost predicate Keyed(mutex: Sid -> nat) {
    forall sid :: mutex(sid) >= 1
  }

  predicate Enabled(mutex: Sid -> nat, s: State, r: Rid, step: Step) {
    r < |s.reqs| &&
    var q := s.reqs[r];
    match step
    case Present(_, _) => q.pc == Init
    case AcquireKeyed => q.pc.WantKeyed? && q.sid.Some? && mutex(q.sid.value) !in s.owner
    case AcquireZero => q.pc.WantZero? && 0 !in s.owner
    case Finish(_, _) => q.pc.InZero? && q.sid.Some?
    case RenewSid(_) => q.pc == Renew && q.sid.Some?
    case UserLock => q.pc == Ready
    case UserUnlock => q.pc == Ready && q.sid.Some?
    case Use(op) => q.pc == Ready && op != FirstLoad && op != DbmCleanup
    case RegisterDbmCleanup => q.pc == Ready
    case EndHandler => q.pc == Ready
    case RunUnlock => q.pc == Cleaning && q.unlocks > 0 && q.sid.Some?
    case RunDbmCleanup => q.pc == Cleaning && q.dbmCleanup
    case EndRequest => q.pc == Cleaning && q.unlocks == 0 && !q.dbmCleanup
  }

  function SetReq(s: State, r: Rid, q: Request): State
    requires r < |s.reqs|
  {
    s.(reqs := s.reqs[r := q])
  }

  /** `unlock`: nothing unless the session is locked. */
  function Unlock(mutex: Sid -> nat, s: State, r: Rid, q: Request): State
    requires r < |s.reqs| && q.sid.Some?
  {
    if q.locked then
      SetReq(s.(owner := s.owner - {mutex(q.sid.value)}), r,
             q.(locked := false, released := q.released + 1, view := None))
    else SetReq(s, r, q)
  }

  /** The end of an operation under mutex 0. */
  function Operate(s: State, q: Request, op: Op, found: bool, doomed: set<Sid>): (map<Sid, string>, Request)
    requires q.sid.Some?
  {
    var sid := q.sid.value;
    match op
    case FirstLoad =>
      (s.store, q.(pc := if found && sid in s.store then Ready else Renew, view := Some(Get(s.store, sid))))
    case Load => (s.store, q.(pc := Ready, view := Some(Get(s.store, sid))))
    case Save(data) => (s.store[sid := data], q.(pc := Ready, view := Some(Some(data))))
    case Delete => (s.store - {sid}, q.(pc := Ready, view := Some(None)))
    case DbmCleanup => (s.store - doomed, q.(pc := Cleaning))
    case PspCache => (s.store, q.(pc := Ready))
  }

  function Apply(mutex: Sid -> nat, s: State, r: Rid, step: Step): State
    requires Enabled(mutex, s, r, step)
  {
    var q := s.reqs[r];
    match step
    case Present(sid, newSid) =>
      SetReq(s, r, if sid.Some? then q.(pc := WantKeyed(true), sid := sid)
                   else q.(pc := WantKeyed(false), sid := Some(newSid)))
    case AcquireKeyed =>
      SetReq(s.(owner := s.owner[mutex(q.sid.value) := r]), r,
             q.(pc := if q.pc.loads then WantZero(FirstLoad) else Ready,
                locked := true, unlocks := q.unlocks + 1, acquired := q.acquired + 1, view := None))
    case AcquireZero => SetReq(s.(owner := s.owner[0 := r]), r, q.(pc := InZero(q.pc.op)))
    case Finish(found, doomed) =>
      var (store, q') := Operate(s, q, q.pc.op, found, doomed);
      SetReq(s.(owner := s.owner - {0}, store := store), r, q')
    case RenewSid(newSid) =>
      var s' := Unlock(mutex, s, r, q);
      SetReq(s', r, s'.reqs[r].(pc := WantKeyed(false), sid := Some(newSid)))
    case UserLock => SetReq(s, r, q.(pc := WantKeyed(false)))
    case UserUnlock => Unlock(mutex, s, r, q)
    case Use(op) => SetReq(s, r, q.(pc := WantZero(op)))
    case RegisterDbmCleanup => SetReq(s, r, q.(dbmCleanup := true))
    case EndHandler => SetReq(s, r, q.(pc := Cleaning))
    case RunUnlock => Unlock(mutex, s, r, q.(unlocks := q.unlocks - 1))
    case RunDbmCleanup => SetReq(s, r, q.(pc := WantZero(DbmCleanup), dbmCleanup := false))
    case EndRequest => SetReq(s, r, q.(pc := Done))
  }

  lemma OnlyOwnRequest(mutex: Sid -> nat, s: State, r: Rid, step: Step)
    requires Enabled(mutex, s, r, step)
    ensures var s' := Apply(mutex, s, r, step);
            |s'.reqs| == |s.reqs| && s'.reqs == s.reqs[r := s'.reqs[r]]
  {
  }

  function NewRequest(): Request {
    Request(Init, None, false, 0, false, 0, 0, None)
  }

  /** Any number of requests, none of which has begun, and any store. */
  ghost predicate Initial(s: State) {
    s.owner == map[] && forall r :: 0 <= r < |s.reqs| ==> s.reqs[r] == NewRequest()
  }

  ghost predicate Holds(s: State, r: Rid, i: nat) {
    i in s.owner && s.owner[i] == r
  }

  /** What a request's fields say about its locks. */
  ghost predicate RequestOk(q: Request) {
    && (q.pc != Init ==> q.sid.Some?)
    && (q.pc == Init ==> !q.locked && q.unlocks == 0)
    && (q.locked ==> q.unlocks > 0)
    && (q.pc == Done ==> q.unlocks == 0 && !q.dbmCleanup)
    && q.acquired == q.released + (if q.locked then 1 else 0)
  }

  /** Who owns which mutex follows from where the requests stand. */
  ghost predicate OwnersOk(mutex: Sid -> nat, s: State) {
    && (forall i :: i in s.owner ==> s.owner[i] < |s.reqs|)
    && (forall r :: 0 <= r < |s.reqs| ==> (Holds(s, r, 0) <==> s.reqs[r].pc.InZero?))
    && (forall r :: 0 <= r < |s.reqs| && s.reqs[r].locked ==>
          s.reqs[r].sid.Some? && Holds(s, r, mutex(s.reqs[r].sid.value)))
    && (forall i :: i in s.owner && i > 0 ==>
          var q := s.reqs[s.owner[i]]; q.locked && q.sid.Some? && mutex(q.sid.value) == i)
  }

  ghost predicate Inv(mutex: Sid -> nat, s: State) {
    && (forall r :: 0 <= r < |s.reqs| ==> RequestOk(s.reqs[r]))
    && OwnersOk(mutex, s)
  }

  lemma StepKeepsRequest(mutex: Sid -> nat, s: State, r: Rid, step: Step, t: Rid)
    requires Enabled(mutex, s, r, step) && t < |s.reqs|
    requires RequestOk(s.reqs[r]) && RequestOk(s.reqs[t])
    requires s.reqs[r].pc.WantKeyed? && s.reqs[r].locked && s.reqs[r].sid.Some? ==>
               mutex(s.reqs[r].sid.value) in s.owner
    ensures RequestOk(Apply(mutex, s, r, step).reqs[t])
  {
  }

  lemma AcquireKeepsOwners(mutex: Sid -> nat, s: State, r: Rid)
    requires Keyed(mutex) && Inv(mutex, s) && Enabled(mutex, s, r, AcquireKeyed)
    ensures OwnersOk(mutex, Apply(mutex, s, r, AcquireKeyed))
  {
    assert RequestOk(s.reqs[r]);
  }

  lemma UnlockKeepsOwners(mutex: Sid -> nat, s: State, r: Rid, step: Step)
    requires Keyed(mutex) && Inv(mutex, s) && Enabled(mutex, s, r, step)
    requires step.RenewSid? || step.UserUnlock? || step.RunUnlock?
    ensures OwnersOk(mutex, Apply(mutex, s, r, step))
  {
    var q := s.reqs[r];
    if q.locked {
      assert Holds(s, r, mutex(q.sid.value));
    } else {
    }
  }

  lemma AcquireZeroKeepsOwners(mutex: Sid -> nat, s: State, r: Rid)
    requires Keyed(mutex) && Inv(mutex, s) && Enabled(mutex, s, r, AcquireZero)
    ensures OwnersOk(mutex, Apply(mutex, s, r, AcquireZero))
  {
    assert RequestOk(s.reqs[r]);
  }

  lemma FinishKeepsOwners(mutex: Sid -> nat, s: State, r: Rid, step: Step)
    requires Keyed(mutex) && Inv(mutex, s) && Enabled(mutex, s, r, step) && step.Finish?
    ensures OwnersOk(mutex, Apply(mutex, s, r, step))
  {
    assert RequestOk(s.reqs[r]);
    OperateKeepsLock(s, s.reqs[r], s.reqs[r].pc.op, step.found, step.doomed);
    hide Operate;
  }

  lemma OperateKeepsLock(s: State, q: Request, op: Op, found: bool, doomed: set<Sid>)
    requires q.sid.Some?
    ensures var q' := Operate(s, q, op, found, doomed).1;
            q'.sid == q.sid && q'.locked == q.locked && !q'.pc.InZero?
  {
  }

  predicate IsLockStep(step: Step) {
    step.AcquireKeyed? || step.RenewSid? || step.UserUnlock? || step.RunUnlock?
    || step.AcquireZero? || step.Finish?
  }

  lemma OtherStepKeepsOwners(mutex: Sid -> nat, s: State, r: Rid, step: Step)
    requires Keyed(mutex) && Inv(mutex, s) && Enabled(mutex, s, r, step) && !IsLockStep(step)
    ensures OwnersOk(mutex, Apply(mutex, s, r, step))
  {
    assert RequestOk(s.reqs[r]);
    var q' := Apply(mutex, s, r, step).reqs[r];
    assert q'.locked == s.reqs[r].locked && (q'.locked ==> q'.sid == s.reqs[r].sid);
    assert Apply(mutex, s, r, step) == SetReq(s, r, q');
  }

  /** Every step of every request keeps the protocol's invariant. */
  lemma StepKeepsInv(mutex: Sid -> nat, s: State, r: Rid, step: Step)
    requires Keyed(mutex) && Inv(mutex, s) && Enabled(mutex, s, r, step)
    ensures Inv(mutex, Apply(mutex, s, r, step))
  {
    hide RequestOk;
    assert RequestOk(s.reqs[r]);
    forall t | 0 <= t < |s.reqs| ensures RequestOk(Apply(mutex, s, r, step).reqs[t]) {
      StepKeepsRequest(mutex, s, r, step, t);
    }
    if step.AcquireKeyed? {
      AcquireKeepsOwners(mutex, s, r);
    } else if step.RenewSid? || step.UserUnlock? || step.RunUnlock? {
      UnlockKeepsOwners(mutex, s, r, step);
    } else if step.AcquireZero? {
      AcquireZeroKeepsOwners(mutex, s, r);
    } else if step.Finish? {
      FinishKeepsOwners(mutex, s, r, step);
    } else {
      OtherStepKeepsOwners(mutex, s, r, step);
    }
  }

  datatype Move = Move(r: Rid, step: Step)

  ghost predicate IsRun(mutex: Sid -> nat, s: State, moves: seq<Move>)
    decreases |moves|
  {
    moves != [] ==>
      && Enabled(mutex, s, moves[0].r, moves[0].step)
      && IsRun(mutex, Apply(mutex, s, moves[0].r, moves[0].step), moves[1..])
  }

  ghost function After(mutex: Sid -> nat, s: State, moves: seq<Move>): State
    requires IsRun(mutex, s, moves)
    decreases |moves|
  {
    if moves == [] then s else After(mutex, Apply(mutex, s, moves[0].r, moves[0].step), moves[1..])
  }

  lemma {:induction false} RunKeepsInv(mutex: Sid -> nat, s: State, moves: seq<Move>)
    requires Keyed(mutex) && Inv(mutex, s) && IsRun(mutex, s, moves)
    ensures Inv(mutex, After(mutex, s, moves))
    ensures |After(mutex, s, moves).reqs| == |s.reqs|
    decreases |moves|
  {
    hide Inv;
    if moves != [] {
      StepKeepsInv(mutex, s, moves[0].r, moves[0].step);
      RunKeepsInv(mutex, Apply(mutex, s, moves[0].r, moves[0].step), moves[1..]);
    }
  }

  /** In every interleaving: two requests never have the same session locked, nor two sessions
      with the same mutex; and a finished request holds no mutex and has released each one as
      often as it took it. */
  lemma MutualExclusion(mutex: Sid -> nat, s0: State, moves: seq<Move>, r: Rid, t: Rid)
    requires Keyed(mutex) && Initial(s0) && IsRun(mutex, s0, moves)
    requires r < |s0.reqs| && t < |s0.reqs| && r != t
    ensures var s := After(mutex, s0, moves);
            && |s.reqs| == |s0.reqs|
            && (s.reqs[r].locked && s.reqs[t].locked ==>
                  && s.reqs[r].sid.Some? && s.reqs[t].sid.Some?
                  && mutex(s.reqs[r].sid.value) != mutex(s.reqs[t].sid.value)
                  && s.reqs[r].sid != s.reqs[t].sid)
            && !(s.reqs[r].pc.InZero? && s.reqs[t].pc.InZero?)
            && (s.reqs[r].pc == Done ==>
                  s.reqs[r].acquired == s.reqs[r].released && forall i :: !Holds(s, r, i))
  {
    assert Inv(mutex, s0);
    RunKeepsInv(mutex, s0, moves);
    var s := After(mutex, s0, moves);
    assert RequestOk(s.reqs[r]);
    assert forall i :: i in s.owner && i > 0 ==> s.reqs[s.owner[i]].locked;
  }

  /** A mutex leaves the owners only in a step of the request that owns it. */
  lemma ReleasesItsOwn(mutex: Sid -> nat, s0: State, moves: seq<Move>, r: Rid, step: Step, i: nat)
    requires Keyed(mutex) && Initial(s0) && IsRun(mutex, s0, moves)
    requires Enabled(mutex, After(mutex, s0, moves), r, step)
    requires i in After(mutex, s0, moves).owner
    requires i !in Apply(mutex, After(mutex, s0, moves), r, step).owner
    ensures After(mutex, s0, moves).owner[i] == r
  {
    assert Inv(mutex, s0);
    RunKeepsInv(mutex, s0, moves);
    var s := After(mutex, s0, moves);
    assert RequestOk(s.reqs[r]);
    if s.reqs[r].locked {
      assert Holds(s, r, mutex(s.reqs[r].sid.value));
    }
    if s.reqs[r].pc.InZero? {
      assert Holds(s, r, 0);
    }
  }
}
