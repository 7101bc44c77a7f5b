/** Which handlers of a phase are run, when the dispatcher stops, and with what result. */
module DispatchRules {
  import opened HandlerDispatch
  import opened HandlerList
  import opened Optional
  import opened Text

  /** A handler lets the next one run if it succeeds and returns OK, but not where a first one that
      takes charge is enough, or DECLINED, but not where content or cleanups are produced. */
  predicate LetsGoOn(phase: Phase, t: Turn) {
    && !t.fails
    && ((t.result == 0 && phase !in {Trans, Authen, Authz, Type}) || (t.result == -1 && phase !in {Handler, Cleanup}))
  }

  /** The calls of `add_handler` for a phase, in order; none is for Cleanup. */
  function AddsFor(phase: Phase, adds: seq<Add>): seq<Add> {
    if adds == [] then []
    else
      var last := adds[|adds| - 1];
      AddsFor(phase, adds[..|adds| - 1]) + if last.phase == phase && phase != Cleanup then [last] else []
  }

  /** Those that the handlers found and called in these turns make. */
  function Asked(phase: Phase, turns: seq<Turn>): seq<Add> {
    if turns == [] then []
    else
      var last := turns[|turns| - 1];
      Asked(phase, turns[..|turns| - 1]) + if last.lookup == Found then AddsFor(phase, last.adds) else []
  }

  lemma ActIs(phase: Phase, trace: seq<Entry>, turns: seq<Turn>, i: nat)
    requires i < |trace| <= |turns|
    ensures var acts := Acts(phase, trace, turns);
            acts[i] == ActOf(phase, trace[i], ObjectOf(phase, trace[..i], turns), ResultOf(acts[..i]), turns[i])
  {
    hide ActOf, ObjectOf;
    ActsOfPrefix(phase, trace, turns, i);
    ActsOfPrefix(phase, trace, turns, i + 1);
    assert trace[..i + 1] == trace[..i] + [trace[i]];
    ActsStep(phase, trace[..i], turns, trace[i]);
    assert Acts(phase, trace, turns)[i] == Acts(phase, trace, turns)[..i + 1][i];
  }

  lemma FoundActIs(phase: Phase, e: Entry, o: Object, result: int, t: Turn)
    requires t.lookup == Found
    ensures ActOf(phase, e, o, result, t) == Act(t.adds, LetsGoOn(phase, t), t.result)
  {
  }

  /** A handler that is found lets the next one in the list run if it succeeds with a result that allows
      it, and is the last one otherwise, however long the list is; the last one's result is that of the
      phase. */
  lemma StopsUnlessAllowed(phase: Phase, list: seq<Entry>, turns: seq<Turn>, trace: seq<Entry>, result: int, i: nat)
    requires IsRun(phase, list, turns, trace, result) && i < |trace| && turns[i].lookup == Found
    ensures i + 1 < |trace| ==> LetsGoOn(phase, turns[i])
    ensures i + 1 == |trace| ==> result == turns[i].result
    ensures LetsGoOn(phase, turns[i]) && i + 1 < |list| && i + 1 < |turns| ==> i + 1 < |trace|
  {
    hide Acts, ActOf, ObjectOf, LetsGoOn, AddsOf, Added;
    var acts := Acts(phase, trace, turns);
    ActIs(phase, trace, turns, i);
    FoundActIs(phase, trace[i], ObjectOf(phase, trace[..i], turns), ResultOf(acts[..i]), turns[i]);
    assert |ListAfter(phase, list, acts, |trace|)| >= |list|;
  }

  /** A handler that is not silent and not found is the last one, and the result is that of the error
      report. */
  lemma MissingStops(phase: Phase, list: seq<Entry>, turns: seq<Turn>, trace: seq<Entry>, result: int, i: nat)
    requires IsRun(phase, list, turns, trace, result)
    requires i < |trace| && turns[i].lookup != Found && !trace[i].silent
    ensures i + 1 == |trace| && result == turns[i].result
  {
    hide Acts, ObjectOf, AddsOf, Added, ObjectAfter;
    ActIs(phase, trace, turns, i);
  }

  /** `es` are the entries that the calls make: the handler and directory asked for, and no marks. */
  predicate AreMade(es: seq<Entry>, adds: seq<Add>) {
    |es| == |adds| &&
    forall k :: 0 <= k < |es| ==> es[k] == Entry(adds[k].handler, adds[k].directory, false, false, None, false)
  }

  lemma {:induction false} AddedAreMade(phase: Phase, adds: seq<Add>)
    ensures AreMade(Added(phase, adds), AddsFor(phase, adds))
  {
    if adds != [] {
      AddedAreMade(phase, adds[..|adds| - 1]);
    }
  }

  predicate OnlyFirstSilent(es: seq<Entry>) {
    forall k :: 1 <= k < |es| ==> !es[k].silent
  }

  /** A turn adds what the object found adds. */
  lemma ActAdds(phase: Phase, trace: seq<Entry>, turns: seq<Turn>, i: nat)
    requires i < |trace| <= |turns| && OnlyFirstSilent(trace)
    ensures Acts(phase, trace, turns)[i].adds == if turns[i].lookup == Found then turns[i].adds else []
  {
    hide Acts, IsPath;
    ActIs(phase, trace, turns, i);
    if i == 0 {
      assert trace[..0] == [];
    }
  }

  lemma AddsNext(phase: Phase, q: Phase, trace: seq<Entry>, turns: seq<Turn>, i: nat)
    requires i < |trace| <= |turns| && OnlyFirstSilent(trace)
    requires var acts := Acts(phase, trace, turns);
             AreMade(Added(q, AddsOf(acts[..i])), Asked(q, turns[..i]))
    ensures var acts := Acts(phase, trace, turns);
            AreMade(Added(q, AddsOf(acts[..i + 1])), Asked(q, turns[..i + 1]))
  {
    hide Acts, Added, AddsFor, OnlyFirstSilent;
    var acts := Acts(phase, trace, turns);
    ActAdds(phase, trace, turns, i);
    assert acts[..i + 1][..i] == acts[..i] && turns[..i + 1][..i] == turns[..i];
    AddedConcat(q, AddsOf(acts[..i]), acts[i].adds);
    AddedAreMade(q, acts[i].adds);
    NothingMade(q);
    hide AddsOf;
  }

  lemma NothingMade(phase: Phase)
    ensures Added(phase, []) == []
  {
  }

  lemma {:induction false} AddedInTurns(phase: Phase, q: Phase, trace: seq<Entry>, turns: seq<Turn>, i: nat)
    requires i <= |trace| <= |turns| && OnlyFirstSilent(trace)
    ensures AreMade(Added(q, AddsOf(Acts(phase, trace, turns)[..i])), Asked(q, turns[..i]))
    decreases i
  {
    if i > 0 {
      AddedInTurns(phase, q, trace, turns, i - 1);
      hide AreMade;
      AddsNext(phase, q, trace, turns, i - 1);
    }
  }

  lemma {:induction false} NoneSilent(phase: Phase, list: seq<Entry>, turns: seq<Turn>, trace: seq<Entry>, result: int,
                                      i: nat)
    requires IsRun(phase, list, turns, trace, result) && OnlyFirstSilent(list) && list != [] && i <= |trace|
    ensures OnlyFirstSilent(trace[..i])
    decreases i
  {
    hide Acts, AddsOf, Added;
    if i > 0 {
      NoneSilent(phase, list, turns, trace, result, i - 1);
      var acts := Acts(phase, trace, turns);
      AddedAreMade(phase, AddsOf(acts[..i - 1]));
      assert trace[..i] == trace[..i - 1] + [trace[i - 1]];
    }
  }

  /** The handlers that have turns are those of the list, followed by those that the ones before them
      asked for, in order; and as long as these allow it, all of them. */
  lemma TraceIsInOrder(phase: Phase, list: seq<Entry>, turns: seq<Turn>, trace: seq<Entry>, result: int, i: nat)
    requires IsRun(phase, list, turns, trace, result) && OnlyFirstSilent(list) && list != [] && i <= |trace|
    ensures var asked := Asked(phase, turns[..i]);
            && (i < |trace| ==>
                  if i < |list| then trace[i] == list[i]
                  else i < |list| + |asked| && AreMade([trace[i]], [asked[i - |list|]]))
            && (i == |trace| < |turns| ==>
                  || i == |list| + |asked|
                  || (i > 0 && !(turns[i - 1].lookup == Found && LetsGoOn(phase, turns[i - 1]))))
  {
    NoneSilent(phase, list, turns, trace, result, |trace|);
    assert trace[..|trace|] == trace;
    AddedInTurns(phase, phase, trace, turns, i);
    hide Acts, AddsOf, Added, OnlyFirstSilent, ActOf, ObjectOf, LetsGoOn, Asked;
    var acts := Acts(phase, trace, turns);
    if i > 0 && i == |trace| && turns[i - 1].lookup == Found {
      ActIs(phase, trace, turns, i - 1);
      FoundActIs(phase, trace[i - 1], ObjectOf(phase, trace[..i - 1], turns), ResultOf(acts[..i - 1]), turns[i - 1]);
    }
  }

  /** What is registered for another phase is what the handlers found asked for, in order. */
  lemma OthersAreRegistered(phase: Phase, q: Phase, list: seq<Entry>, turns: seq<Turn>, trace: seq<Entry>, result: int)
    requires IsRun(phase, list, turns, trace, result) && OnlyFirstSilent(list) && list != [] && q != phase
    ensures AreMade(Extra(phase, q, Acts(phase, trace, turns)), Asked(q, turns[..|trace|]))
  {
    NoneSilent(phase, list, turns, trace, result, |trace|);
    assert trace[..|trace|] == trace;
    AddedInTurns(phase, q, trace, turns, |trace|);
    assert Acts(phase, trace, turns)[..|trace|] == Acts(phase, trace, turns);
  }

  predicate IsPattern(e: Entry) {
    !e.isLocation && (e.isFnmatch || e.regex.Some?)
  }

  /** The configured handlers are run first, then the registered ones, each in the directory it was
      given, or in the one that its pattern matches. */
  lemma ConfiguredComeFirst(phase: Phase, configured: seq<Entry>, registered: seq<Entry>,
                            resolve: Entry -> Option<string>, turns: seq<Turn>, trace: seq<Entry>, result: int, i: nat)
    requires forall e :: e in registered ==> !e.silent
    requires IsRun(phase, Resolved(resolve, PhaseList(configured, registered)), turns, trace, result)
    requires i < |trace| && i < |configured + registered|
    ensures var e := (configured + registered)[i];
            var own := e.(silent := e.silent && i == 0);
            && trace[i].handler == e.handler && (trace[i].silent <==> own.silent)
            && trace[i].directory == if IsPattern(e) then resolve(own) else e.directory
  {
    hide Acts, AddsOf, Added, Resolve;
    var list := PhaseList(configured, registered);
    assert i >= |configured| ==> registered[i - |configured|] in registered;
    assert list[i] == (configured + registered)[i].(silent := (configured + registered)[i].silent && i == 0);
    assert trace[i] == Resolve(resolve, list[i]);
    ResolveIs(resolve, list[i]);
  }

  lemma ResolveIs(resolve: Entry -> Option<string>, e: Entry)
    ensures var r := Resolve(resolve, e);
            r.handler == e.handler && r.silent == e.silent
            && r.directory == if IsPattern(e) then resolve(e) else e.directory
  {
  }

  lemma FirstColons(file: string, member: string)
    requires !Occurs("::", file + ":")
    ensures ColonsAt(file + "::" + member) == |file|
  {
    var s := file + "::" + member;
    assert s[|file|..|file| + 2] == "::";
    assert OccursAt("::", s, |file|);
    forall j: nat | j < |file| ensures !OccursAt("::", s, j) {
      assert s[j..j + 2] == (file + ":")[j..j + 2];
      assert !OccursAt("::", file + ":", j);
    }
  }

  /** Of a silent first handler that is missing, only what is written after the first `::` counts: with a
      dot there it is skipped, and without one the phase ends with an error report. */
  lemma NamedObjectIsSkippedIff(phase: Phase, list: seq<Entry>, turns: seq<Turn>, trace: seq<Entry>, result: int,
                                file: string, member: string)
    requires list != [] && list[0].silent && list[0].handler == file + "::" + member && !Occurs("::", file + ":")
    requires turns != [] && turns[0].lookup == Missing && IsRun(phase, list, turns, trace, result)
    ensures trace != [] && (|list| > 1 && |turns| > 1 ==> (|trace| > 1 <==> '.' in member))
    ensures |trace| == 1 ==> result == if '.' in member then -1 else turns[0].result
  {
    hide IsRun;
    FirstColons(file, member);
    assert (file + "::" + member)[|file| + 2..] == member;
    SilentIsSkippedIff(phase, list, turns, trace, result);
  }

  /** One whose object is Python's `None` is skipped, whatever its name. */
  lemma NullIsSkipped(phase: Phase, list: seq<Entry>, turns: seq<Turn>, trace: seq<Entry>, result: int)
    requires list != [] && list[0].silent && turns != [] && turns[0].lookup == Null
    requires IsRun(phase, list, turns, trace, result)
    ensures trace != [] && (|list| > 1 && |turns| > 1 ==> |trace| > 1)
    ensures |trace| == 1 ==> result == -1
  {
    hide Acts, ActOf, Added, AddsOf;
    var acts := Acts(phase, trace, turns);
    assert trace != [] ==> trace[0] == ListAfter(phase, list, acts, 0)[0] == list[0];
    assert ListAfter(phase, list, acts, 0)[0] == list[0];
    FirstAct(phase, trace, turns);
    NullAct(phase, list[0], turns[0]);
    if |trace| > 0 {
      assert |ListAfter(phase, list, acts, 1)| >= |list|;
    }
  }

  lemma NullAct(phase: Phase, e: Entry, t: Turn)
    requires e.silent && t.lookup == Null
    ensures ActOf(phase, e, Unbound, HTTP_INTERNAL_SERVER_ERROR, t) == Act([], true, -1)
  {
  }
}
