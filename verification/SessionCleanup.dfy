/** The session database's cleanup cannot be noticed (`BaseSession.load`, `dbm_cleanup` and
    `DbmSession.do_load`/`do_save`/`do_delete`, lib/python/mod_python/Session.py). */
module SessionCleanup {
  import opened Optional

  type Sid = string

  datatype Record = Record(data: string, created: real, accessed: real, timeout: real)

  predicate Expired(rec: Record, now: real) {
    now - rec.accessed > rec.timeout
  }

  /** The records that are expired at `now`. */
  function ExpiredIn(db: map<Sid, Record>, now: real): set<Sid> {
    set sid | sid in db && Expired(db[sid], now)
  }

  /** The system clock, which other processes let run on between two readings. */
  class Clock {
    var now: real

    constructor (now: real)
      ensures this.now == now
    {
      this.now := now;
    }

    method Time() returns (t: real)
      modifies this
      ensures t == now >= old(now)
    {
      var tick: real :| tick >= 0.0;
      now := now + tick;
      t := now;
    }
  }

  class Database {
    var db: map<Sid, Record>

    constructor ()
      ensures db == map[]
    {
      db := map[];
    }

    /** `do_load` and the check in `load`. */
    method Load(sid: Sid, clock: Clock) returns (r: Option<Record>)
      modifies clock
      ensures clock.now >= old(clock.now)
      ensures r == Loaded(db, sid, clock.now)
    {
      r := None;
      var now := clock.Time();
      if sid in db {
        if !(now - db[sid].accessed > db[sid].timeout) {
          r := Some(db[sid]);
        }
      }
    }

    /** `dbm_cleanup`: the clock is read again for every record. */
    method Cleanup(clock: Clock) returns (doomed: set<Sid>)
      modifies this, clock
      ensures clock.now >= old(clock.now)
      ensures ExpiredIn(old(db), old(clock.now)) <= doomed <= ExpiredIn(old(db), clock.now)
      ensures db == old(db) - doomed
    {
      doomed := {};
      var rest := db.Keys;
      while rest != {}
        invariant rest <= db.Keys && db == old(db) && clock.now >= old(clock.now)
        invariant doomed <= ExpiredIn(db, clock.now)
        invariant forall sid :: sid in ExpiredIn(db, old(clock.now)) ==> sid in doomed || sid in rest
        decreases |rest|
      {
        var sid :| sid in rest;
        rest := rest - {sid};
        var now := clock.Time();
        if now - db[sid].accessed > db[sid].timeout {
          doomed := doomed + {sid};
        }
      }
      db := db - doomed;
    }
  }

  function Loaded(db: map<Sid, Record>, sid: Sid, now: real): Option<Record> {
    if sid in db && !Expired(db[sid], now) then Some(db[sid]) else None
  }

  /** What requests and cleanups do to the database, each at some time. */
  datatype Event = Load(sid: Sid, at: real)
                 | Save(sid: Sid, rec: Record, at: real)
                 | Delete(sid: Sid, at: real)
                 | Cleanup(doomed: set<Sid>, at: real)

  function Apply(db: map<Sid, Record>, e: Event): map<Sid, Record> {
    match e
    case Load(_, _) => db
    case Save(sid, rec, _) => db[sid := rec]
    case Delete(sid, _) => db - {sid}
    case Cleanup(doomed, _) => db - doomed
  }

  /** Time does not go back, and a cleanup removes only records expired when it ends. */
  ghost predicate IsRun(db: map<Sid, Record>, events: seq<Event>, now: real)
    decreases |events|
  {
    events != [] ==>
      var e := events[0];
      && now <= e.at
      && (e.Cleanup? ==> forall sid :: sid in e.doomed && sid in db ==> Expired(db[sid], e.at))
      && IsRun(Apply(db, e), events[1..], e.at)
  }

  /** What the loads of a run return. */
  function Loads(db: map<Sid, Record>, events: seq<Event>): seq<Option<Record>>
    decreases |events|
  {
    if events == [] then []
    else
      var e := events[0];
      (if e.Load? then [Loaded(db, e.sid, e.at)] else []) + Loads(Apply(db, e), events[1..])
  }

  /** The run without its cleanups. */
  function WithoutCleanups(events: seq<Event>): seq<Event> {
    if events == [] then []
    else (if events[0].Cleanup? then [] else [events[0]]) + WithoutCleanups(events[1..])
  }

  /** The cleaned database lacks nothing but records that are expired by now. */
  ghost predicate CleanedFrom(cleaned: map<Sid, Record>, full: map<Sid, Record>, now: real) {
    && (forall sid :: sid in cleaned ==> sid in full && full[sid] == cleaned[sid])
    && (forall sid :: sid in full && sid !in cleaned ==> Expired(full[sid], now))
  }

  lemma StepStaysCleaned(cleaned: map<Sid, Record>, full: map<Sid, Record>, now: real, e: Event)
    requires CleanedFrom(cleaned, full, now) && now <= e.at
    requires e.Cleanup? ==> forall sid :: sid in e.doomed && sid in cleaned ==> Expired(cleaned[sid], e.at)
    ensures CleanedFrom(Apply(cleaned, e), if e.Cleanup? then full else Apply(full, e), e.at)
    ensures e.Load? ==> Loaded(cleaned, e.sid, e.at) == Loaded(full, e.sid, e.at)
  {
  }

  lemma {:induction false} CleanupsDoNotMatter(cleaned: map<Sid, Record>, full: map<Sid, Record>,
                                               events: seq<Event>, now: real)
    requires CleanedFrom(cleaned, full, now) && IsRun(cleaned, events, now)
    ensures Loads(cleaned, events) == Loads(full, WithoutCleanups(events))
    decreases |events|
  {
    if events != [] {
      var e := events[0];
      hide CleanedFrom, Loaded, Apply;
      StepStaysCleaned(cleaned, full, now, e);
      var rest := WithoutCleanups(events[1..]);
      if e.Cleanup? {
        assert WithoutCleanups(events) == rest;
        CleanupsDoNotMatter(Apply(cleaned, e), full, events[1..], e.at);
      } else {
        assert WithoutCleanups(events)[1..] == rest;
        CleanupsDoNotMatter(Apply(cleaned, e), Apply(full, e), events[1..], e.at);
      }
    }
  }

  /** Cleanups anywhere in any run change no result of any load. */
  lemma CleanupIsInvisible(db: map<Sid, Record>, events: seq<Event>, now: real)
    requires IsRun(db, events, now)
    ensures Loads(db, events) == Loads(db, WithoutCleanups(events))
  {
    CleanupsDoNotMatter(db, db, events, now);
  }

  /** The record last saved for a session, unless it was deleted later; cleanups do not count. */
  function LastSaved(db: map<Sid, Record>, events: seq<Event>, sid: Sid): Option<Record> {
    if events == [] then
      if sid in db then Some(db[sid]) else None
    else
      var before := events[..|events| - 1];
      match events[|events| - 1]
      case Save(s, rec, _) => if s == sid then Some(rec) else LastSaved(db, before, sid)
      case Delete(s, _) => if s == sid then None else LastSaved(db, before, sid)
      case _ => LastSaved(db, before, sid)
  }

  lemma {:induction false} SavedFromFront(db: map<Sid, Record>, events: seq<Event>, sid: Sid)
    requires events != []
    ensures LastSaved(db, events, sid)
            == LastSaved(if events[0].Cleanup? then db else Apply(db, events[0]), events[1..], sid)
    decreases |events|
  {
    var before := events[..|events| - 1];
    if before == [] {
      assert events == [events[0]] && events[1..] == [];
    } else {
      hide Apply;
      SavedFromFront(db, before, sid);
      assert before[1..] == events[1..][..|events[1..]| - 1];
    }
  }

  lemma {:induction false} LoadAtEnd(db: map<Sid, Record>, events: seq<Event>, sid: Sid, at: real)
    ensures var rec := LastSaved(db, events, sid);
            var found := rec.Some? && at - rec.value.accessed <= rec.value.timeout;
            Loads(db, WithoutCleanups(events) + [Load(sid, at)])
            == Loads(db, WithoutCleanups(events)) + [if found then rec else None]
    decreases |events|
  {
    var load := [Load(sid, at)];
    if events == [] {
      assert [] + load == load && load[1..] == [];
    } else {
      var rest := WithoutCleanups(events[1..]);
      SavedFromFront(db, events, sid);
      hide LastSaved, Apply, Loaded;
      if events[0].Cleanup? {
        assert WithoutCleanups(events) == rest;
        LoadAtEnd(db, events[1..], sid, at);
      } else {
        var all := WithoutCleanups(events) + load;
        assert WithoutCleanups(events)[1..] == rest && all[0] == events[0] && all[1..] == rest + load;
        LoadAtEnd(Apply(db, events[0]), events[1..], sid, at);
      }
    }
  }

  lemma {:induction false} WithoutCleanupsAtEnd(events: seq<Event>, e: Event)
    requires !e.Cleanup?
    ensures WithoutCleanups(events + [e]) == WithoutCleanups(events) + [e]
    decreases |events|
  {
    if events == [] {
      assert [] + [e] == [e] && [e][1..] == [];
    } else {
      assert (events + [e])[0] == events[0] && (events + [e])[1..] == events[1..] + [e];
      WithoutCleanupsAtEnd(events[1..], e);
    }
  }

  lemma {:induction false} RunPrefix(db: map<Sid, Record>, events: seq<Event>, e: Event, now: real)
    requires IsRun(db, events + [e], now)
    ensures IsRun(db, events, now)
    decreases |events|
  {
    if events != [] {
      assert (events + [e])[0] == events[0] && (events + [e])[1..] == events[1..] + [e];
      hide Apply, Expired;
      RunPrefix(Apply(db, events[0]), events[1..], e, events[0].at);
    }
  }

  /** Whatever was loaded, cleaned up and saved before, a load returns the record last saved for its
      session if this was last accessed no longer ago than its timeout, whenever it was created, and
      nothing if that is longer ago or the record was deleted. */
  lemma LoadReturnsLastSaved(db: map<Sid, Record>, events: seq<Event>, sid: Sid, at: real, now: real)
    requires IsRun(db, events + [Load(sid, at)], now)
    ensures var rec := LastSaved(db, events, sid);
            var found := rec.Some? && at - rec.value.accessed <= rec.value.timeout;
            Loads(db, events + [Load(sid, at)]) == Loads(db, events) + [if found then rec else None]
  {
    hide Loads, WithoutCleanups, LastSaved, IsRun;
    RunPrefix(db, events, Load(sid, at), now);
    CleanupIsInvisible(db, events, now);
    CleanupIsInvisible(db, events + [Load(sid, at)], now);
    WithoutCleanupsAtEnd(events, Load(sid, at));
    LoadAtEnd(db, events, sid, at);
  }

  /** It takes a clock that never goes back: set back behind a cleanup, it makes a load miss a
      record that it would have found. */
  lemma ClockSetBack(sid: Sid, rec: Record, late: real, early: real)
    requires Expired(rec, late) && !Expired(rec, early)
    ensures var events := [Cleanup({sid}, late), Load(sid, early)];
            var db := map[sid := rec];
            Loads(db, events) == [None] && Loads(db, WithoutCleanups(events)) == [Some(rec)]
  {
    var events := [Cleanup({sid}, late), Load(sid, early)];
    var db := map[sid := rec];
    var load := [Load(sid, early)];
    assert events[1..] == load && load[1..] == [];
    assert WithoutCleanups(load) == load;
    assert WithoutCleanups(events) == load;
    assert Apply(db, events[0]) == map[];
    assert Loads(map[], load) == [None];
  }
}
