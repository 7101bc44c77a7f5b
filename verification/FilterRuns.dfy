/** Runs of reads of a filter, between which an input filter fetches more. */
module FilterRuns {
  import opened FilterBrigade
  import opened Text

  /** A brigade byte by byte, with its marks. */
  datatype Unit = Byte(c: char) | EosMark | FlushMark

  function Bytes(s: string): (r: seq<Unit>)
    ensures |r| == |s| && forall i :: 0 <= i < |s| ==> r[i] == Byte(s[i])
  {
    seq(|s|, i requires 0 <= i < |s| => Byte(s[i]))
  }

  function Units(b: Bucket): seq<Unit> {
    match b
    case Data(bytes) => Bytes(bytes)
    case Eos => [EosMark]
    case Flush => [FlushMark]
  }

  function Flat(bb: seq<Bucket>): seq<Unit> {
    if bb == [] then [] else Units(bb[0]) + Flat(bb[1..])
  }

  /** What a result hands out: bytes, or the end. */
  function Handed(r: Result): seq<Unit> {
    match r
    case Returned(bytes) => Bytes(bytes)
    case EndOfStream => [EosMark]
    case ClosedFilter => []
  }

  function AllHanded(results: seq<Result>): seq<Unit> {
    if results == [] then [] else Handed(results[0]) + AllHanded(results[1..])
  }

  /** A read, and what an input filter fetches for it. */
  datatype Call = Call(len: int, readline: bool, more: seq<Bucket>)

  function Arrived(calls: seq<Call>): seq<Bucket> {
    if calls == [] then [] else calls[0].more + Arrived(calls[1..])
  }

  /** A run of reads: the brigade before and after each, and the results. */
  ghost predicate IsRun(states: seq<seq<Bucket>>, calls: seq<Call>, results: seq<Result>) {
    && |states| == |calls| + 1 && |results| == |calls|
    && forall i :: 0 <= i < |calls| ==>
         ReadsBrigade(states[i] + calls[i].more, calls[i].len, calls[i].readline, results[i], states[i + 1])
  }

  lemma {:induction false} FlatConcat(a: seq<Bucket>, b: seq<Bucket>)
    ensures Flat(a + b) == Flat(a) + Flat(b)
  {
    hide Units;
    if a == [] {
      assert a + b == b;
    } else {
      assert (a + b)[1..] == a[1..] + b;
      FlatConcat(a[1..], b);
    }
  }

  lemma BytesConcat(a: string, b: string)
    ensures Bytes(a + b) == Bytes(a) + Bytes(b)
  {
  }

  lemma {:induction false} FlatIs(bb: seq<Bucket>)
    ensures Flat(bb) == Bytes(Content(bb)) + Flat(Marks(bb))
  {
    hide Bytes;
    if bb == [] || !bb[0].Data? {
      assert Bytes(Content(bb)) == [];
    } else {
      FlatIs(bb[1..]);
      BytesConcat(bb[0].bytes, Content(bb[1..]));
      AppendAssoc(Bytes(bb[0].bytes), Bytes(Content(bb[1..])), Flat(Marks(bb[1..])));
    }
  }

  /** A read takes what it hands out from the front, and that is never a flush mark. */
  lemma ReadConserves(bb: seq<Bucket>, len: int, readline: bool, r: Result, bb': seq<Bucket>)
    requires ReadsBrigade(bb, len, readline, r, bb')
    ensures Flat(bb) == Handed(r) + Flat(bb') && FlushMark !in Handed(r)
  {
    hide Bytes;
    if bb != [] && bb[0] == Eos {
    } else {
      hide Flat, Content, Marks, Taken;
      FlatIs(bb);
      FlatIs(bb');
      BytesConcat(r.bytes, Content(bb'));
      AppendAssoc(Bytes(r.bytes), Bytes(Content(bb')), Flat(Marks(bb')));
    }
  }

  lemma LaterRun(states: seq<seq<Bucket>>, calls: seq<Call>, results: seq<Result>, n: nat)
    requires IsRun(states, calls, results) && n <= |calls|
    ensures IsRun(states[n..], calls[n..], results[n..])
  {
    hide ReadsBrigade;
  }

  lemma FirstRead(states: seq<seq<Bucket>>, calls: seq<Call>, results: seq<Result>)
    requires IsRun(states, calls, results) && calls != []
    ensures |states| > 1 && results != []
    ensures ReadsBrigade(states[0] + calls[0].more, calls[0].len, calls[0].readline, results[0], states[1])
    ensures states[0] + Arrived(calls) == states[0] + calls[0].more + Arrived(calls[1..])
  {
    hide ReadsBrigade;
    AppendAssoc(states[0], calls[0].more, Arrived(calls[1..]));
  }

  lemma RunStep(states: seq<seq<Bucket>>, calls: seq<Call>, results: seq<Result>)
    requires IsRun(states, calls, results) && calls != []
    ensures Flat(states[0] + Arrived(calls)) == Handed(results[0]) + Flat(states[1] + Arrived(calls[1..]))
    ensures FlushMark !in Handed(results[0])
  {
    hide ReadsBrigade, Flat, Handed, IsRun, Arrived;
    FirstRead(states, calls, results);
    var bb, later := states[0] + calls[0].more, Arrived(calls[1..]);
    ReadConserves(bb, calls[0].len, calls[0].readline, results[0], states[1]);
    FlatConcat(bb, later);
    FlatConcat(states[1], later);
    AppendAssoc(Handed(results[0]), Flat(states[1]), Flat(later));
  }

  /** A run hands out what was there and what arrived from the front, nothing lost, repeated or
      reordered, and never passes a flush mark. */
  lemma {:induction false} RunConserves(states: seq<seq<Bucket>>, calls: seq<Call>, results: seq<Result>)
    requires IsRun(states, calls, results)
    ensures Flat(states[0] + Arrived(calls)) == AllHanded(results) + Flat(states[|calls|])
    ensures FlushMark !in AllHanded(results)
    decreases |calls|
  {
    if calls == [] {
      assert states[0] + [] == states[0];
    } else {
      LaterRun(states, calls, results, 1);
      RunStep(states, calls, results);
      assert AllHanded(results) == Handed(results[0]) + AllHanded(results[1..]);
      hide IsRun, Flat, Handed, AllHanded, Arrived;
      RunConserves(states[1..], calls[1..], results[1..]);
      AppendAssoc(Handed(results[0]), AllHanded(results[1..]), Flat(states[|calls|]));
    }
  }

  lemma {:induction false} NothingHanded(results: seq<Result>)
    requires AllHanded(results) == [] && forall i :: 0 <= i < |results| ==> results[i] != ClosedFilter
    ensures forall i :: 0 <= i < |results| ==> results[i] == Returned("")
  {
    if results != [] {
      NothingHanded(results[1..]);
      assert |Handed(results[0])| == 0;
    }
  }

  /** With a flush mark in front, every read of every run is empty, whatever arrives meanwhile. */
  lemma FlushBlocks(states: seq<seq<Bucket>>, calls: seq<Call>, results: seq<Result>)
    requires IsRun(states, calls, results)
    requires Flat(states[0]) != [] && Flat(states[0])[0] == FlushMark
    ensures forall i :: 0 <= i < |results| ==> results[i] == Returned("")
  {
    ResultsAreOpen(states, calls, results);
    RunConserves(states, calls, results);
    FlatConcat(states[0], Arrived(calls));
    hide IsRun, Flat, Arrived, AllHanded;
    FirstOfPrefix(AllHanded(results), Flat(states[0]) + Flat(Arrived(calls)));
    NothingHanded(results);
  }

  lemma FirstOfPrefix(handed: seq<Unit>, all: seq<Unit>)
    requires handed <= all
    ensures handed != [] ==> handed[0] == all[0] && handed[0] in handed
  {
  }

  lemma ResultsAreOpen(states: seq<seq<Bucket>>, calls: seq<Call>, results: seq<Result>)
    requires IsRun(states, calls, results)
    ensures forall i :: 0 <= i < |results| ==> results[i] != ClosedFilter
  {
    forall i | 0 <= i < |results|
      ensures results[i] != ClosedFilter
    {
      assert ReadsBrigade(states[i] + calls[i].more, calls[i].len, calls[i].readline, results[i], states[i + 1]);
    }
  }

  /** Calls of `read()` while nothing more arrives. */
  predicate AreDrains(calls: seq<Call>) {
    forall i :: 0 <= i < |calls| ==> calls[i] == Call(-1, false, [])
  }

  predicate IsDrained(bb: seq<Bucket>) {
    bb == [] || bb[0] == Flush
  }

  /** As many such calls as there are buckets leave nothing, or a flush bucket in front. */
  lemma {:induction false} DrainsAll(states: seq<seq<Bucket>>, calls: seq<Call>, results: seq<Result>)
    requires IsRun(states, calls, results) && AreDrains(calls)
    requires IsDrained(states[0]) || |calls| >= |states[0]|
    ensures IsDrained(states[|calls|])
    decreases |calls|
  {
    if calls != [] {
      var bb := states[0];
      assert bb + calls[0].more == bb;
      assert ReadsBrigade(bb, -1, false, results[0], states[1]);
      if bb != [] && bb[0].Data? {
        MarksShorter(bb);
      }
      DrainsAll(states[1..], calls[1..], results[1..]);
    }
  }

  lemma MarksShorter(bb: seq<Bucket>)
    requires bb != [] && bb[0].Data?
    ensures |Marks(bb)| < |bb|
  {
  }

  /** No data comes after a flush mark. */
  predicate FlushesLast(units: seq<Unit>) {
    forall i, j :: 0 <= i < j < |units| && units[i] == FlushMark ==> !units[j].Byte?
  }

  predicate HasData(units: seq<Unit>) {
    exists i :: 0 <= i < |units| && units[i].Byte?
  }

  /** Whatever a run was before, unbounded reads to its end leave no data unread if and only if, in
      all that was there and arrived, no data came after a flush mark. */
  lemma AllDataIsReadIff(states: seq<seq<Bucket>>, calls: seq<Call>, results: seq<Result>, n: nat)
    requires IsRun(states, calls, results) && n <= |calls| && AreDrains(calls[n..]) && |calls| - n >= |states[n]|
    ensures !HasData(Flat(states[|calls|])) <==> FlushesLast(Flat(states[0] + Arrived(calls)))
  {
    RunConserves(states, calls, results);
    DrainsLater(states, calls, results, n);
    hide IsRun, AreDrains, Flat, Arrived, AllHanded, IsDrained, HasData, FlushesLast;
    DrainedIs(states[|calls|]);
    LeftIsData(AllHanded(results), Flat(states[|calls|]));
  }

  lemma DrainsLater(states: seq<seq<Bucket>>, calls: seq<Call>, results: seq<Result>, n: nat)
    requires IsRun(states, calls, results) && n <= |calls| && AreDrains(calls[n..]) && |calls| - n >= |states[n]|
    ensures IsDrained(states[|calls|])
  {
    LaterRun(states, calls, results, n);
    hide IsRun, AreDrains, IsDrained;
    DrainsAll(states[n..], calls[n..], results[n..]);
  }

  lemma DrainedIs(bb: seq<Bucket>)
    requires IsDrained(bb)
    ensures Flat(bb) != [] ==> Flat(bb)[0] == FlushMark
  {
  }

  lemma LeftIsData(handed: seq<Unit>, left: seq<Unit>)
    requires FlushMark !in handed && (left != [] ==> left[0] == FlushMark)
    ensures !HasData(left) <==> FlushesLast(handed + left)
  {
    var all := handed + left;
    assert forall i :: 0 <= i < |left| ==> all[|handed| + i] == left[i];
    if !HasData(left) {
      forall i, j | 0 <= i < j < |all| && all[i] == FlushMark
        ensures !all[j].Byte?
      {
        assert forall k :: 0 <= k < |handed| ==> handed[k] in handed;
        assert all[j] == left[j - |handed|];
      }
    } else {
      var i :| 0 <= i < |left| && left[i].Byte?;
      assert all[|handed|] == FlushMark && all[|handed| + i].Byte?;
    }
  }
}
