/** Running the handlers of a phase: how python_handler makes the list (src/mod_python.c), how
    request.add_handler extends it (src/requestobject.c), and the dispatch loop
    (lib/python/mod_python/apache.py). */
module HandlerDispatch {
  import opened HandlerList
  import opened Optional
  import opened Text

  datatype Phase = PostReadRequest | Trans | HeaderParser | Init | Access | Authen | Authz | Type | Fixup
                 | Handler | Log | Cleanup

  const OK := 0
  const DECLINED := -1
  const HTTP_INTERNAL_SERVER_ERROR := 500

  /** The results after which the next handler of the phase is run. */
  function Expected(phase: Phase): set<int> {
    match phase
    case PostReadRequest => {DECLINED, OK}
    case Trans => {DECLINED}
    case HeaderParser => {DECLINED, OK}
    case Init => {DECLINED, OK}
    case Access => {DECLINED, OK}
    case Authen => {DECLINED}
    case Authz => {DECLINED}
    case Type => {DECLINED}
    case Fixup => {DECLINED, OK}
    case Handler => {OK}
    case Log => {DECLINED, OK}
    case Cleanup => {OK}
  }

  /** A call of `add_handler`; the directory is in its canonical form. */
  datatype Add = Add(phase: Phase, handler: string, directory: Option<string>)

  function EntryOf(a: Add): Entry {
    Entry(a.handler, a.directory, false, false, None, false)
  }

  /** The name of the object that a handler stands for if it gives none. */
  function DefaultName(phase: Phase): string {
    match phase
    case PostReadRequest => "postreadrequesthandler"
    case Trans => "transhandler"
    case HeaderParser => "headerparserhandler"
    case Init => "inithandler"
    case Access => "accesshandler"
    case Authen => "authenhandler"
    case Authz => "authzhandler"
    case Type => "typehandler"
    case Fixup => "fixuphandler"
    case Handler => "handler"
    case Log => "loghandler"
    case Cleanup => "cleanuphandler"
  }

  /** The index of the first `::` in `s`, or the length of `s`. */
  function ColonsAt(s: string): (i: nat)
    ensures i <= |s| && (i < |s| ==> OccursAt("::", s, i)) && forall j: nat :: j < i ==> !OccursAt("::", s, j)
  {
    if s == "" || "::" <= s then 0
    else
      var i := 1 + ColonsAt(s[1..]);
      assert forall j: nat :: 0 < j && OccursAt("::", s, j) ==> OccursAt("::", s[1..], j - 1);
      i
  }

  /** The name of the object: what comes after the module, or the default. */
  function ObjectName(phase: Phase, handler: string): string {
    var i := ColonsAt(handler);
    if i == |handler| then DefaultName(phase) else handler[i + 2..]
  }

  /** A name with a dot is a path, and looked up in another way. */
  predicate IsPath(phase: Phase, handler: string) {
    '.' in ObjectName(phase, handler)
  }

  /** What is in the module under the object's name: an object, Python's `None`, or nothing. */
  datatype Lookup = Found | Null | Missing

  /** What happens in a handler's turn: its object is looked up, and the object that is called, if
      one is, adds handlers, and returns a result or fails.  If something fails, `result` is what the
      error report gives. */
  datatype Turn = Turn(lookup: Lookup, adds: seq<Add>, fails: bool, result: int)

  /** The variable that holds the object; it outlives the turn. */
  datatype Object = Unbound | Nothing | Bound

  /** The variable after the lookup: only that of a path sets it when the object is missing. */
  function ObjectAfter(phase: Phase, e: Entry, o: Object, t: Turn): Object {
    match t.lookup
    case Found => Bound
    case Null => Nothing
    case Missing => if e.silent && IsPath(phase, e.handler) then Nothing else o
  }

  /** What a turn comes to: the calls of `add_handler`, whether the next handler is run, and the
      result so far. */
  datatype Act = Act(adds: seq<Add>, goesOn: bool, result: int)

  /** The turn of an entry after `o` and `result` were left by the one before. */
  function ActOf(phase: Phase, e: Entry, o: Object, result: int, t: Turn): Act {
    if t.lookup != Found && !e.silent then Act([], false, t.result)
    else
      match ObjectAfter(phase, e, o, t)
      case Unbound => Act([], false, t.result)
      case Nothing => Act([], true, if result == HTTP_INTERNAL_SERVER_ERROR then DECLINED else result)
      case Bound => Act(t.adds, !t.fails && t.result in Expected(phase), t.result)
  }

  function ObjectOf(phase: Phase, trace: seq<Entry>, turns: seq<Turn>): Object
    requires |trace| <= |turns|
  {
    if trace == [] then Unbound
    else
      var k := |trace| - 1;
      ObjectAfter(phase, trace[k], ObjectOf(phase, trace[..k], turns), turns[k])
  }

  function ResultOf(acts: seq<Act>): int {
    if acts == [] then HTTP_INTERNAL_SERVER_ERROR else acts[|acts| - 1].result
  }

  /** What the turns of the entries in `trace` come to. */
  function Acts(phase: Phase, trace: seq<Entry>, turns: seq<Turn>): (acts: seq<Act>)
    requires |trace| <= |turns|
    ensures |acts| == |trace|
  {
    if trace == [] then []
    else
      var k := |trace| - 1;
      var acts := Acts(phase, trace[..k], turns);
      acts + [ActOf(phase, trace[k], ObjectOf(phase, trace[..k], turns), ResultOf(acts), turns[k])]
  }

  lemma ActsStep(phase: Phase, trace: seq<Entry>, turns: seq<Turn>, e: Entry)
    requires |trace| < |turns|
    ensures ObjectOf(phase, trace + [e], turns) == ObjectAfter(phase, e, ObjectOf(phase, trace, turns), turns[|trace|])
    ensures var acts := Acts(phase, trace, turns);
            Acts(phase, trace + [e], turns) ==
            acts + [ActOf(phase, e, ObjectOf(phase, trace, turns), ResultOf(acts), turns[|trace|])]
  {
    assert (trace + [e])[..|trace|] == trace;
  }

  lemma {:induction false} ActsOfPrefix(phase: Phase, trace: seq<Entry>, turns: seq<Turn>, i: nat)
    requires i <= |trace| <= |turns|
    ensures Acts(phase, trace, turns)[..i] == Acts(phase, trace[..i], turns)
    decreases |trace|
  {
    hide ActOf, ObjectOf, ResultOf;
    if i == |trace| {
      assert trace[..i] == trace;
    } else {
      var k := |trace| - 1;
      ActsOfPrefix(phase, trace[..k], turns, i);
      assert trace[..k][..i] == trace[..i];
    }
  }

  /** The entries that calls of `add_handler` make for a phase; Cleanup is refused. */
  function Added(p: Phase, adds: seq<Add>): seq<Entry> {
    if adds == [] then []
    else
      var last := adds[|adds| - 1];
      Added(p, adds[..|adds| - 1]) + if last.phase == p != Cleanup then [EntryOf(last)] else []
  }

  lemma AddedOne(a: Add)
    ensures forall p :: Added(p, [a]) == if a.phase == p != Cleanup then [EntryOf(a)] else []
  {
    assert [a][..0] == [];
    assert forall p :: Added(p, [a]) == Added(p, []) + if a.phase == p != Cleanup then [EntryOf(a)] else [];
  }

  lemma {:induction false} AddedConcat(p: Phase, adds: seq<Add>, more: seq<Add>)
    ensures Added(p, adds + more) == Added(p, adds) + Added(p, more)
    decreases |more|
  {
    if more == [] {
      assert adds + more == adds;
    } else {
      var rest := more[..|more| - 1];
      assert (adds + more)[..|adds + more| - 1] == adds + rest;
      AddedConcat(p, adds, rest);
    }
  }

  lemma AddedInOrder(adds: seq<Add>)
    ensures forall p :: Added(p, adds) ==
                        if adds == [] then [] else Added(p, [adds[0]]) + Added(p, adds[1..])
  {
    if adds != [] {
      assert adds == [adds[0]] + adds[1..];
      forall p {
        AddedConcat(p, [adds[0]], adds[1..]);
      }
    }
  }

  /** The calls that the handlers make in their turns. */
  function AddsOf(acts: seq<Act>): seq<Add> {
    if acts == [] then [] else AddsOf(acts[..|acts| - 1]) + acts[|acts| - 1].adds
  }

  /** A directory pattern is replaced by the directory that it matches. */
  function Resolve(resolve: Entry -> Option<string>, e: Entry): Entry {
    if !e.isLocation && (e.isFnmatch || e.regex.Some?) then
      e.(directory := resolve(e), isFnmatch := false, regex := None)
    else e
  }

  function Resolved(resolve: Entry -> Option<string>, es: seq<Entry>): (r: seq<Entry>)
    ensures |r| == |es|
  {
    seq(|es|, i requires 0 <= i < |es| => Resolve(resolve, es[i]))
  }

  /** The list of the phase: the configured handlers, then the registered ones. */
  function PhaseList(configured: seq<Entry>, registered: seq<Entry>): seq<Entry> {
    if configured == [] then Copied(registered) else Copied(configured) + registered
  }

  /** The list of the phase with what was appended to it in the first `i` turns. */
  function ListAfter(phase: Phase, list: seq<Entry>, acts: seq<Act>, i: nat): seq<Entry>
    requires i <= |acts|
  {
    list + Added(phase, AddsOf(acts[..i]))
  }

  /** Each entry in `trace` is the next in the list as it is by then. */
  ghost predicate Follows(phase: Phase, list: seq<Entry>, acts: seq<Act>, trace: seq<Entry>)
    requires |acts| == |trace|
  {
    forall i :: 0 <= i < |trace| ==>
      i < |ListAfter(phase, list, acts, i)| && trace[i] == ListAfter(phase, list, acts, i)[i]
  }

  /** The handlers in `trace` have their turns: each is the next in the list as it is by then, after
      all but the last the next one is run, and the list is used up unless that is not so after the
      last one either, or the turns given end. */
  ghost predicate IsRun(phase: Phase, list: seq<Entry>, turns: seq<Turn>, trace: seq<Entry>, result: int) {
    var k := |trace|;
    && k <= |turns|
    && var acts := Acts(phase, trace, turns);
    && Follows(phase, list, acts, trace)
    && (forall i :: 0 <= i < k - 1 ==> acts[i].goesOn)
    && (k < |turns| ==> k == |ListAfter(phase, list, acts, k)| || (k > 0 && !acts[k - 1].goesOn))
    && result == ResultOf(acts)
  }

  lemma ListStep(phase: Phase, list: seq<Entry>, acts: seq<Act>, i: nat)
    requires i < |acts|
    ensures ListAfter(phase, list, acts, i + 1) == ListAfter(phase, list, acts, i) + Added(phase, acts[i].adds)
  {
    assert acts[..i + 1][..i] == acts[..i];
    AddedConcat(phase, AddsOf(acts[..i]), acts[i].adds);
    AppendAssoc(list, Added(phase, AddsOf(acts[..i])), Added(phase, acts[i].adds));
  }

  /** Only the turns before count. */
  lemma ListOfPrefix(phase: Phase, list: seq<Entry>, acts: seq<Act>, more: seq<Act>, i: nat)
    requires i <= |acts| && acts <= more
    ensures ListAfter(phase, list, more, i) == ListAfter(phase, list, acts, i)
  {
    assert more[..i] == acts[..i];
  }

  /** What the turns add to what is registered for `q`. */
  function Extra(phase: Phase, q: Phase, acts: seq<Act>): seq<Entry> {
    if q == phase then [] else Added(q, AddsOf(acts))
  }

  lemma ExtraStep(phase: Phase, q: Phase, acts: seq<Act>, act: Act, es: seq<Entry>)
    ensures es + Extra(phase, q, acts + [act]) ==
            (es + Extra(phase, q, acts)) + if q == phase then [] else Added(q, act.adds)
  {
    assert (acts + [act])[..|acts|] == acts;
    AddedConcat(q, AddsOf(acts), act.adds);
    hide Added, AddsOf;
    AppendAssoc(es, Added(q, AddsOf(acts)), Added(q, act.adds));
  }

  /** The handlers in `trace` had their turns, and after each the next one is run. */
  ghost predicate Going(phase: Phase, list: seq<Entry>, acts: seq<Act>, trace: seq<Entry>) {
    && |acts| == |trace| && Follows(phase, list, acts, trace)
    && (forall i :: 0 <= i < |acts| ==> acts[i].goesOn)
  }

  lemma NoTurns(phase: Phase, list: seq<Entry>)
    ensures ListAfter(phase, list, [], 0) == list && Going(phase, list, [], [])
    ensures forall q :: Extra(phase, q, []) == []
  {
  }

  lemma NothingYet(phase: Phase, turns: seq<Turn>)
    ensures Acts(phase, [], turns) == [] && ObjectOf(phase, [], turns) == Unbound
  {
  }

  lemma TurnMoves(trace: seq<Entry>, before: seq<Entry>, added: seq<Entry>)
    requires before != []
    ensures (trace + [before[0]]) + (before + added)[1..] == (trace + before) + added
    ensures (trace + before)[|trace|] == before[0]
  {
    assert (before + added)[1..] == before[1..] + added;
  }

  /** One more turn: what is left of the list. */
  lemma TurnLeaves(phase: Phase, list: seq<Entry>, acts: seq<Act>, act: Act, trace: seq<Entry>, before: seq<Entry>)
    requires |acts| == |trace| && before != []
    requires trace + before == ListAfter(phase, list, acts, |acts|)
    ensures (trace + [before[0]]) + (before + Added(phase, act.adds))[1..]
            == ListAfter(phase, list, acts + [act], |acts| + 1)
    ensures |trace| < |trace + before| && (trace + before)[|trace|] == before[0]
  {
    ListOfPrefix(phase, list, acts, acts + [act], |acts|);
    hide ListAfter, Added;
    ListStep(phase, list, acts + [act], |acts|);
    TurnMoves(trace, before, Added(phase, act.adds));
  }

  /** One more turn follows the list. */
  lemma TurnFollows(phase: Phase, list: seq<Entry>, acts: seq<Act>, act: Act, trace: seq<Entry>, e: Entry)
    requires |acts| == |trace| && Follows(phase, list, acts, trace)
    requires |trace| < |ListAfter(phase, list, acts, |acts|)| && e == ListAfter(phase, list, acts, |acts|)[|trace|]
    ensures Follows(phase, list, acts + [act], trace + [e])
  {
    hide ListAfter;
    forall i | 0 <= i <= |trace|
      ensures ListAfter(phase, list, acts + [act], i) == ListAfter(phase, list, acts, i)
    {
      ListOfPrefix(phase, list, acts, acts + [act], i);
    }
  }

  /** After one more turn, the loop goes on or ends. */
  lemma TurnStep(phase: Phase, list: seq<Entry>, turns: seq<Turn>, trace: seq<Entry>, e: Entry)
    requires |trace| < |turns| && Going(phase, list, Acts(phase, trace, turns), trace)
    requires var now := ListAfter(phase, list, Acts(phase, trace, turns), |trace|);
             |trace| < |now| && e == now[|trace|]
    ensures var acts := Acts(phase, trace + [e], turns);
            if acts[|trace|].goesOn then Going(phase, list, acts, trace + [e])
            else IsRun(phase, list, turns, trace + [e], acts[|trace|].result)
  {
    hide ListAfter, ActOf, ObjectOf, Acts, Follows;
    ActsStep(phase, trace, turns, e);
    var acts := Acts(phase, trace, turns);
    TurnFollows(phase, list, acts, Acts(phase, trace + [e], turns)[|trace|], trace, e);
  }

  /** The loop ends when the list is used up, or the turns given are. */
  lemma RunEnds(phase: Phase, list: seq<Entry>, turns: seq<Turn>, trace: seq<Entry>, left: seq<Entry>)
    requires |trace| <= |turns| && Going(phase, list, Acts(phase, trace, turns), trace)
    requires trace + left == ListAfter(phase, list, Acts(phase, trace, turns), |trace|)
    requires left == [] || |trace| == |turns|
    ensures IsRun(phase, list, turns, trace, ResultOf(Acts(phase, trace, turns)))
  {
    hide ListAfter, Acts, Follows;
    if left == [] {
      assert trace + left == trace;
    }
  }

  /** The handlers run are a beginning of the list with everything appended. */
  lemma {:induction false} RunIsPrefix(phase: Phase, list: seq<Entry>, acts: seq<Act>, trace: seq<Entry>, i: nat)
    requires i <= |trace| == |acts| && Follows(phase, list, acts, trace)
    ensures trace[..i] <= ListAfter(phase, list, acts, i)
    decreases i
  {
    hide ListAfter;
    if i > 0 {
      RunIsPrefix(phase, list, acts, trace, i - 1);
      ListStep(phase, list, acts, i - 1);
      assert trace[..i] == trace[..i - 1] + [trace[i - 1]];
    }
  }

  /** Two runs begin alike. */
  lemma {:induction false} RunsBeginAlike(phase: Phase, list: seq<Entry>, turns: seq<Turn>, t: seq<Entry>,
                                          u: seq<Entry>, i: nat)
    requires i <= |t| <= |turns| && i <= |u| <= |turns|
    requires Follows(phase, list, Acts(phase, t, turns), t) && Follows(phase, list, Acts(phase, u, turns), u)
    ensures t[..i] == u[..i]
    ensures Acts(phase, t, turns)[..i] == Acts(phase, u, turns)[..i]
    decreases i
  {
    hide Acts, AddsOf, Added;
    if i > 0 {
      RunsBeginAlike(phase, list, turns, t, u, i - 1);
      assert t[i - 1] == u[i - 1];
      assert t[..i] == t[..i - 1] + [t[i - 1]] && u[..i] == u[..i - 1] + [u[i - 1]];
    }
    ActsOfPrefix(phase, t, turns, i);
    ActsOfPrefix(phase, u, turns, i);
  }

  lemma LastOf(phase: Phase, list: seq<Entry>, a: seq<Act>, b: seq<Act>, k: nat)
    requires k <= |a| && k <= |b| && a[..k] == b[..k]
    ensures ListAfter(phase, list, a, k) == ListAfter(phase, list, b, k)
    ensures k > 0 ==> a[k - 1] == b[k - 1]
  {
    assert k > 0 ==> a[..k][k - 1] == b[..k][k - 1];
  }

  lemma RunIsNoLonger(phase: Phase, list: seq<Entry>, turns: seq<Turn>, t: seq<Entry>, r: int, u: seq<Entry>, s: int)
    requires IsRun(phase, list, turns, t, r) && IsRun(phase, list, turns, u, s)
    ensures |u| <= |t|
  {
    if |t| < |u| {
      hide Acts, AddsOf, Added;
      var k, a, b := |t|, Acts(phase, t, turns), Acts(phase, u, turns);
      RunsBeginAlike(phase, list, turns, t, u, k);
      LastOf(phase, list, a, b, k);
    }
  }

  /** What the handlers do decides which are run. */
  lemma RunIsUnique(phase: Phase, list: seq<Entry>, turns: seq<Turn>, t: seq<Entry>, r: int, u: seq<Entry>, s: int)
    requires IsRun(phase, list, turns, t, r) && IsRun(phase, list, turns, u, s)
    ensures t == u && r == s
  {
    RunIsNoLonger(phase, list, turns, t, r, u, s);
    RunIsNoLonger(phase, list, turns, u, s, t, r);
    RunsBeginAlike(phase, list, turns, t, u, |t|);
    assert t == t[..|t|] == u[..|t|] == u;
  }

  /** Copying a list loses nothing but the mark of silent entries after the first. */
  lemma CopiesAreTheSameIff(es: seq<Entry>)
    ensures Copied(es) == es <==> forall i :: 1 <= i < |es| ==> !es[i].silent
  {
    if Copied(es) == es {
      assert forall i :: 1 <= i < |es| ==> es[i] == Copied(es)[i] == Loud(es[i]);
    }
  }

  /** In the list of a phase, only the first entry can be silent. */
  lemma OnlyFirstIsSilent(configured: seq<Entry>, registered: seq<Entry>, resolve: Entry -> Option<string>, i: nat)
    requires forall e :: e in registered ==> !e.silent
    requires 1 <= i < |PhaseList(configured, registered)|
    ensures !Resolved(resolve, PhaseList(configured, registered))[i].silent
  {
    var list := PhaseList(configured, registered);
    assert configured != [] && i >= |configured| ==> list[i] == registered[i - |configured|];
  }

  lemma FirstAct(phase: Phase, trace: seq<Entry>, turns: seq<Turn>)
    requires 0 < |trace| <= |turns|
    ensures Acts(phase, trace, turns)[0] == ActOf(phase, trace[0], Unbound, HTTP_INTERNAL_SERVER_ERROR, turns[0])
  {
    ActsOfPrefix(phase, trace, turns, 1);
    assert trace[..1] == [] + [trace[0]];
    ActsStep(phase, [], turns, trace[0]);
    assert Acts(phase, trace, turns)[0] == Acts(phase, trace, turns)[..1][0];
  }

  lemma FirstSkipped(phase: Phase, e: Entry, t: Turn)
    requires e.silent && t.lookup == Missing
    ensures var act := ActOf(phase, e, Unbound, HTTP_INTERNAL_SERVER_ERROR, t);
            && (act.goesOn <==> IsPath(phase, e.handler))
            && act.result == if IsPath(phase, e.handler) then DECLINED else t.result
  {
  }

  /** A silent first handler whose object is missing is skipped if and only if the object's name has
      a dot: then the next handler is run, or the request is declined if there is none.  Otherwise the
      use of a variable that has no value yet fails, and the result is that of the error report. */
  lemma SilentIsSkippedIff(phase: Phase, list: seq<Entry>, turns: seq<Turn>, trace: seq<Entry>, result: int)
    requires list != [] && list[0].silent && turns != [] && turns[0].lookup == Missing
    requires IsRun(phase, list, turns, trace, result)
    ensures trace != [] && trace[0] == list[0]
    ensures |list| > 1 && |turns| > 1 ==> (|trace| > 1 <==> '.' in ObjectName(phase, list[0].handler))
    ensures |trace| == 1 ==>
              result == if '.' in ObjectName(phase, list[0].handler) then DECLINED else turns[0].result
  {
    hide Acts, ActOf, Added, AddsOf, ObjectName;
    var acts := Acts(phase, trace, turns);
    assert trace != [] ==> trace[0] == ListAfter(phase, list, acts, 0)[0] == list[0];
    assert ListAfter(phase, list, acts, 0)[0] == list[0];
    FirstAct(phase, trace, turns);
    FirstSkipped(phase, list[0], turns[0]);
    if |trace| > 0 {
      assert |ListAfter(phase, list, acts, 1)| >= |list|;
    }
  }

  lemma DefaultHasNoDot(phase: Phase)
    ensures '.' !in DefaultName(phase)
  {
  }

  /** PythonHandlerModule configures the module as the silent handler of every phase, for its absence
      to be ignored.  It never is: in a phase for which the module has no handler, the run ends with
      an error. */
  lemma ModuleIsNotIgnored(phase: Phase, list: seq<Entry>, turns: seq<Turn>, trace: seq<Entry>, result: int)
    requires list != [] && list[0].silent && !Occurs("::", list[0].handler)
    requires turns != [] && turns[0].lookup == Missing && IsRun(phase, list, turns, trace, result)
    ensures trace == [list[0]] && result == turns[0].result
  {
    hide Acts, ActOf, Added, AddsOf;
    assert ColonsAt(list[0].handler) == |list[0].handler|;
    DefaultHasNoDot(phase);
    FirstAct(phase, trace, turns);
    FirstSkipped(phase, list[0], turns[0]);
    SilentIsSkippedIff(phase, list, turns, trace, result);
  }

  method ResolveOne(resolve: Entry -> Option<string>, hle: HlEntry)
    modifies hle`directory, hle`isFnmatch, hle`regex
    ensures hle.Value() == Resolve(resolve, old(hle.Value()))
  {
    if !hle.isLocation && (hle.isFnmatch || hle.regex.Some?) {
      hle.directory := resolve(hle.Value());
      hle.isFnmatch := false;
      hle.regex := None;
    }
  }

  method ResolveAll(resolve: Entry -> Option<string>, head: HlEntry?, ghost nodes: seq<HlEntry>)
    requires Chain(head, nodes)
    modifies nodes`directory, nodes`isFnmatch, nodes`regex
    ensures Chain(head, nodes) && Values(nodes) == Resolved(resolve, old(Values(nodes)))
  {
    ghost var es := Values(nodes);
    var hle := head;
    ghost var i := 0;
    assert forall k, m :: 0 <= k < m < |nodes| ==> nodes[k] != nodes[m];
    while hle != null
      invariant i <= |nodes| && hle == if i < |nodes| then nodes[i] else null
      invariant Chain(head, nodes)
      invariant forall k :: 0 <= k < i ==> nodes[k].Value() == Resolve(resolve, es[k])
      invariant forall k :: i <= k < |nodes| ==> nodes[k].Value() == es[k]
      decreases |nodes| - i
    {
      hide Chain, Resolve, Values;
      ResolveOne(resolve, hle);
      ChainNext(head, nodes, i);
      hle := hle.next;
      i := i + 1;
    }
  }

  class Request {
    var phase: Phase
    var head: HlEntry?
    /** The lists registered for the other phases, by their entries. */
    var dynhls: map<Phase, seq<Entry>>
    ghost var current: seq<HlEntry>
    ghost var repr: set<HlEntry>

    /** `current` are the entries from the current one on, `repr` those of the list. */
    ghost predicate Valid()
      reads this, repr
    {
      (forall n :: n in current ==> n in repr) && Chain(head, current)
    }

    /** The entries that are registered for a phase. */
    function RegisteredFor(p: Phase): seq<Entry>
      reads `dynhls
    {
      if p in dynhls then dynhls[p] else []
    }

    /** `request.add_handler`; an entry added in the phase being run is lost when its list is used
        up. */
    method AddHandler(a: Add) returns (ok: bool)
      requires Valid()
      modifies this`dynhls, this`current, this`repr, repr`next
      ensures Valid() && fresh(repr - old(repr)) && old(repr) <= repr
      ensures ok == (a.phase != Cleanup)
      ensures Values(current) == old(Values(current)) + if head == null then [] else Added(phase, [a])
      ensures forall q :: RegisteredFor(q) == old(RegisteredFor(q)) + if q == phase then [] else Added(q, [a])
    {
      hide Chain, Values, Added;
      AddedOne(a);
      if a.phase == Cleanup {
        return false;
      }
      ok := true;
      if a.phase == phase {
        var n := HlistAppend(head, EntryOf(a), current);
        if head != null {
          current := current + [n];
          repr := repr + {n};
        }
      } else {
        dynhls := dynhls[a.phase := RegisteredFor(a.phase) + [EntryOf(a)]];
      }
    }

    /** One handler's calls of `add_handler`. */
    method AddAll(adds: seq<Add>)
      requires Valid() && head != null
      modifies this`dynhls, this`current, this`repr, repr`next
      ensures Valid() && fresh(repr - old(repr)) && old(repr) <= repr
      ensures Values(current) == old(Values(current)) + Added(phase, adds)
      ensures forall q :: RegisteredFor(q) == old(RegisteredFor(q)) + if q == phase then [] else Added(q, adds)
      decreases |adds|
    {
      hide Chain, Values, RegisteredFor, Valid, Added;
      AddedInOrder(adds);
      if adds == [] {
        assert Values(current) + [] == Values(current);
        assert forall q :: RegisteredFor(q) + [] == RegisteredFor(q);
      } else {
        ghost var es := Values(current);
        var ok := AddHandler(adds[0]);
        AddAll(adds[1..]);
        AppendAssoc(es, Added(phase, [adds[0]]), Added(phase, adds[1..]));
        forall q | q != phase
          ensures RegisteredFor(q) == old(RegisteredFor(q)) + Added(q, adds)
        {
          AppendAssoc(old(RegisteredFor(q)), Added(q, [adds[0]]), Added(q, adds[1..]));
        }
      }
    }

    /** `hlist.next()`. */
    method Next()
      requires Valid() && head != null
      modifies this`head, this`current
      ensures Valid()
      ensures Values(current) == old(Values(current))[1..]
    {
      ChainTail(head, current);
      head := head.next;
      current := current[1..];
    }

    /** The current handler's turn, and what is left in the variables of the loop. */
    method RunCurrent(t: Turn, obj: Object, result: int) returns (e: Entry, obj': Object, act: Act)
      requires Valid() && head != null
      modifies this`dynhls, this`current, this`repr, repr`next
      ensures Valid() && fresh(repr - old(repr)) && old(repr) <= repr
      ensures old(Values(current)) != [] && e == old(Values(current))[0]
      ensures obj' == ObjectAfter(phase, e, obj, t) && act == ActOf(phase, e, obj, result, t)
      ensures Values(current) == old(Values(current)) + Added(phase, act.adds)
      ensures forall q :: RegisteredFor(q) == old(RegisteredFor(q)) + if q == phase then [] else Added(q, act.adds)
    {
      assert current != [] && head == current[0];
      hide Chain, RegisteredFor, Added, Values;
      NoAdds();
      e := head.Value();
      obj' := obj;
      match t.lookup {
        case Found =>
          obj' := Bound;
        case Null =>
          obj' := Nothing;
        case Missing =>
          if head.silent && '.' in ObjectName(phase, head.handler) {
            obj' := Nothing;
          }
      }
      if (t.lookup != Found && !head.silent) || obj' == Unbound {
        act := Act([], false, t.result);
      } else if obj' != Nothing {
        act := Act(t.adds, !t.fails && t.result in Expected(phase), t.result);
        AddAll(t.adds);
      } else {
        act := Act([], true, if result == HTTP_INTERNAL_SERVER_ERROR then DECLINED else result);
      }
    }

    lemma NoAdds()
      ensures Values(current) + Added(phase, []) == Values(current)
      ensures forall q :: RegisteredFor(q) + [] == RegisteredFor(q) && Added(q, []) == []
    {
    }

    lemma NothingLeft()
      requires Valid() && head == null
      ensures Values(current) == []
    {
    }

    /** The loop of HandlerDispatch over what happens in the handlers' turns. */
    method Dispatch(turns: seq<Turn>) returns (trace: seq<Entry>, result: int)
      requires Valid()
      modifies this`head, this`dynhls, this`current, this`repr, repr`next
      ensures Valid() && fresh(repr - old(repr)) && old(repr) <= repr
      ensures |trace| <= |turns| && IsRun(phase, old(Values(current)), turns, trace, result)
      ensures forall q :: RegisteredFor(q) == old(RegisteredFor(q)) + Extra(phase, q, Acts(phase, trace, turns))
    {
      hide Chain, Values, RegisteredFor, Added, Extra, ListAfter, Valid, Going, IsRun, Acts, ActOf, ObjectOf,
           ObjectAfter;
      ghost var list, acts := Values(current), [];
      var obj := Unbound;
      trace, result := [], HTTP_INTERNAL_SERVER_ERROR;
      NoTurns(phase, list);
      NothingYet(phase, turns);
      assert forall q :: RegisteredFor(q) + [] == RegisteredFor(q);
      assert trace + list == list;
      while head != null && |trace| < |turns|
        invariant Valid() && fresh(repr - old(repr)) && old(repr) <= repr
        invariant |trace| <= |turns| && acts == Acts(phase, trace, turns) && Going(phase, list, acts, trace)
        invariant obj == ObjectOf(phase, trace, turns) && result == ResultOf(acts)
        invariant trace + Values(current) == ListAfter(phase, list, acts, |acts|)
        invariant forall q :: RegisteredFor(q) == old(RegisteredFor(q)) + Extra(phase, q, acts)
        decreases |turns| - |trace|
      {
        ghost var before := Values(current);
        var t := turns[|trace|];
        var e, act;
        e, obj, act := RunCurrent(t, obj, result);
        forall q
          ensures RegisteredFor(q) == old(RegisteredFor(q)) + Extra(phase, q, acts + [act])
        {
          ExtraStep(phase, q, acts, act, old(RegisteredFor(q)));
        }
        TurnLeaves(phase, list, acts, act, trace, before);
        ActsStep(phase, trace, turns, e);
        TurnStep(phase, list, turns, trace, e);
        trace, acts := trace + [e], acts + [act];
        result := act.result;
        if !act.goesOn {
          return;
        }
        Next();
      }
      if head == null {
        NothingLeft();
      }
      RunEnds(phase, list, turns, trace, Values(current));
    }

    /** The list of a phase that has configured or registered handlers, made of copies. */
    method MakeList(conf: HlEntry?, dyn: HlEntry?, ghost confNodes: seq<HlEntry>, ghost dynNodes: seq<HlEntry>)
        returns (list: HlEntry, ghost nodes: seq<HlEntry>)
      requires Chain(conf, confNodes) && Chain(dyn, dynNodes) && (conf != null || dyn != null)
      ensures fresh(nodes) && Chain(list, nodes)
      ensures Values(nodes) == PhaseList(Values(confNodes), Values(dynNodes))
    {
      if conf == null {
        assert confNodes == [];
        list, nodes := HlistCopy(dyn, dynNodes);
      } else {
        assert confNodes != [];
        hide Chain;
        ghost var copies;
        list, copies := HlistCopy(conf, confNodes);
        ghost var more := HlistExtend(list, dyn, copies, dynNodes);
        nodes := copies + more;
      }
    }

    /** Makes the list of a phase the current one. */
    method StartPhase(phase: Phase, resolve: Entry -> Option<string>, conf: HlEntry?, dyn: HlEntry?,
                      ghost confNodes: seq<HlEntry>, ghost dynNodes: seq<HlEntry>)
      requires Chain(conf, confNodes) && Chain(dyn, dynNodes) && (conf != null || dyn != null)
      modifies this`phase, this`head, this`current, this`repr
      ensures Valid() && fresh(repr) && this.phase == phase
      ensures Values(current) == Resolved(resolve, PhaseList(old(Values(confNodes)), old(Values(dynNodes))))
    {
      hide Chain, Values, PhaseList, Resolved;
      var list, nodes := MakeList(conf, dyn, confNodes, dynNodes);
      ResolveAll(resolve, list, nodes);
      this.phase, head := phase, list;
      current, repr := nodes, set n | n in nodes;
    }

    /** python_handler: makes the list of the phase and runs it, or declines if there are neither
        configured nor registered handlers.  It leaves their lists as they are. */
    method PythonHandler(phase: Phase, resolve: Entry -> Option<string>, conf: HlEntry?, dyn: HlEntry?,
                         ghost confNodes: seq<HlEntry>, ghost dynNodes: seq<HlEntry>, turns: seq<Turn>)
        returns (trace: seq<Entry>, result: int)
      requires Chain(conf, confNodes) && Chain(dyn, dynNodes) && Values(dynNodes) == RegisteredFor(phase)
      modifies this
      ensures Chain(conf, confNodes) && Values(confNodes) == old(Values(confNodes))
      ensures Chain(dyn, dynNodes) && Values(dynNodes) == RegisteredFor(phase)
      ensures conf == null && dyn == null ==> trace == [] && result == DECLINED
      ensures conf != null || dyn != null ==>
                IsRun(phase, Resolved(resolve, PhaseList(Values(confNodes), Values(dynNodes))), turns, trace, result)
      ensures |trace| <= |turns|
      ensures forall q :: RegisteredFor(q) == old(RegisteredFor(q)) + Extra(phase, q, Acts(phase, trace, turns))
    {
      hide Chain, Values, RegisteredFor, PhaseList, Resolved, Added, Valid;
      if conf == null && dyn == null {
        trace, result := [], DECLINED;
        NoTurns(phase, []);
        assert forall q :: RegisteredFor(q) + [] == RegisteredFor(q);
      } else {
        StartPhase(phase, resolve, conf, dyn, confNodes, dynNodes);
        trace, result := Dispatch(turns);
        hide IsRun;
        assert Extra(phase, phase, Acts(phase, trace, turns)) == [];
        hide Extra;
        assert RegisteredFor(phase) + [] == RegisteredFor(phase);
      }
    }
  }
}
