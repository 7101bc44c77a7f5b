/** Lists of handlers on the heap (src/hlist.c). */
module HandlerList {
  import opened Optional

  /** The data of a list entry; a directory is a pattern if it is marked as one or has a regular
      expression. */
  datatype Entry = Entry(handler: string, directory: Option<string>, isFnmatch: bool, isLocation: bool,
                         regex: Option<string>, silent: bool)

  class HlEntry {
    var handler: string
    var directory: Option<string>
    var isFnmatch: bool
    var isLocation: bool
    var regex: Option<string>
    var silent: bool
    var next: HlEntry?

    /** An entry as `apr_pcalloc` allocates and the callers fill it. */
    constructor (e: Entry)
      ensures next == null && Value() == e
    {
      handler, directory, isFnmatch, isLocation := e.handler, e.directory, e.isFnmatch, e.isLocation;
      regex, silent, next := e.regex, e.silent, null;
    }

    function Value(): Entry
      reads `handler, `directory, `isFnmatch, `isLocation, `regex, `silent
    {
      Entry(handler, directory, isFnmatch, isLocation, regex, silent)
    }
  }

  /** `nodes` are the entries of the list that starts with `head`. */
  ghost predicate Chain(head: HlEntry?, nodes: seq<HlEntry>)
    reads nodes`next
  {
    && head == (if nodes == [] then null else nodes[0])
    && (forall i :: 0 <= i < |nodes| ==> nodes[i].next == if i + 1 < |nodes| then nodes[i + 1] else null)
    && (forall i, j :: 0 <= i < j < |nodes| ==> nodes[i] != nodes[j])
  }

  /** The entry after the one at `i`. */
  lemma ChainNext(head: HlEntry?, nodes: seq<HlEntry>, i: nat)
    requires Chain(head, nodes) && i < |nodes|
    ensures nodes[i].next == if i + 1 < |nodes| then nodes[i + 1] else null
  {
  }

  lemma ChainTail(head: HlEntry, nodes: seq<HlEntry>)
    requires Chain(head, nodes)
    ensures nodes != [] && Chain(head.next, nodes[1..])
  {
    forall i | 0 <= i < |nodes[1..]|
      ensures nodes[1..][i].next == if i + 1 < |nodes[1..]| then nodes[1..][i + 1] else null
    {
      ChainNext(head, nodes, i + 1);
    }
    ChainNext(head, nodes, 0);
  }

  ghost function Values(nodes: seq<HlEntry>): (es: seq<Entry>)
    reads nodes
    ensures |es| == |nodes| && forall i :: 0 <= i < |nodes| ==> es[i] == nodes[i].Value()
  {
    seq(|nodes|, i requires 0 <= i < |nodes| reads nodes => nodes[i].Value())
  }

  /** Allocates an entry and links it after the last one. */
  method Grow(tail: HlEntry, e: Entry, ghost head: HlEntry, ghost nodes: seq<HlEntry>) returns (n: HlEntry)
    requires Chain(head, nodes) && nodes != [] && tail == nodes[|nodes| - 1]
    modifies tail`next
    ensures fresh(n) && Chain(head, nodes + [n])
    ensures Values(nodes + [n]) == old(Values(nodes)) + [e]
  {
    n := new HlEntry(e);
    tail.next := n;
  }

  lemma ChainOne(n: HlEntry)
    requires n.next == null
    ensures Chain(n, [n])
  {
  }

  /** Walks to the last entry. */
  method FindTail(hle: HlEntry?, ghost nodes: seq<HlEntry>) returns (tail: HlEntry?)
    requires Chain(hle, nodes)
    ensures tail == if nodes == [] then null else nodes[|nodes| - 1]
  {
    tail := hle;
    ghost var i := 0;
    while tail != null && tail.next != null
      invariant nodes != [] ==> i < |nodes| && tail == nodes[i]
      invariant nodes == [] ==> tail == null
      decreases |nodes| - i
    {
      ChainNext(hle, nodes, i);
      tail := tail.next;
      i := i + 1;
    }
    if nodes != [] {
      ChainNext(hle, nodes, i);
    }
  }

  /** Appends an entry; it is the whole list if there was none. */
  method HlistAppend(hle: HlEntry?, e: Entry, ghost nodes: seq<HlEntry>) returns (nhle: HlEntry)
    requires Chain(hle, nodes)
    modifies nodes`next
    ensures fresh(nhle) && Chain(if hle == null then nhle else hle, nodes + [nhle])
    ensures Values(nodes + [nhle]) == old(Values(nodes)) + [e]
  {
    var tail := FindTail(hle, nodes);
    if tail != null {
      nhle := Grow(tail, e, hle, nodes);
    } else {
      nhle := new HlEntry(e);
      ChainOne(nhle);
      assert nodes + [nhle] == [nhle];
    }
  }

  /** The entry that `hlist_copy` makes of one after the head: it does not copy `silent`. */
  function Loud(e: Entry): Entry {
    e.(silent := false)
  }

  function Copied(es: seq<Entry>): (r: seq<Entry>)
    ensures |r| == |es|
  {
    seq(|es|, i requires 0 <= i < |es| => if i == 0 then es[0] else Loud(es[i]))
  }

  /** Copies a list, which keeps its entries. */
  method HlistCopy(hle: HlEntry, ghost nodes: seq<HlEntry>) returns (head: HlEntry, ghost copies: seq<HlEntry>)
    requires Chain(hle, nodes)
    ensures fresh(copies) && Chain(head, copies)
    ensures Values(copies) == Copied(Values(nodes))
  {
    ghost var es := Values(nodes);
    head := new HlEntry(hle.Value());
    copies := [head];
    ChainOne(head);
    ChainNext(hle, nodes, 0);
    var h := hle.next;
    var nhle := head;
    ghost var i := 1;
    assert hle == nodes[0] && Values(copies) == Copied(es)[..i];
    while h != null
      invariant 1 <= i <= |nodes| && h == if i < |nodes| then nodes[i] else null
      invariant |copies| == i && fresh(copies) && nhle == copies[i - 1]
      invariant Chain(head, copies) && Chain(hle, nodes) && Values(nodes) == es
      invariant Values(copies) == Copied(es)[..i]
      decreases |nodes| - i
    {
      hide Chain, Copied;
      ChainNext(hle, nodes, i);
      var n := Grow(nhle, Loud(h.Value()), head, copies);
      CopiedStep(es, i);
      nhle := n;
      copies := copies + [n];
      h := h.next;
      i := i + 1;
    }
  }

  lemma CopiedStep(es: seq<Entry>, i: nat)
    requires 1 <= i < |es|
    ensures Copied(es)[..i + 1] == Copied(es)[..i] + [Loud(es[i])]
  {
  }

  lemma AppendLast<T>(a: seq<T>, b: seq<T>, x: T)
    ensures a + (b + [x]) == (a + b) + [x]
  {
  }

  lemma TakeNext<T>(a: seq<T>, b: seq<T>, i: nat)
    requires i < |b|
    ensures a + b[..i + 1] == (a + b[..i]) + [b[i]]
  {
  }

  /** Appends copies of the entries of the second list to the first. */
  method HlistExtend(hle1: HlEntry, hle2: HlEntry?, ghost nodes1: seq<HlEntry>, ghost nodes2: seq<HlEntry>)
      returns (ghost copies: seq<HlEntry>)
    requires Chain(hle1, nodes1) && Chain(hle2, nodes2)
    requires forall n :: n in nodes1 ==> n !in nodes2
    modifies nodes1`next
    ensures fresh(copies) && Chain(hle1, nodes1 + copies)
    ensures Values(nodes1 + copies) == old(Values(nodes1)) + old(Values(nodes2))
  {
    ghost var es1, es2 := Values(nodes1), Values(nodes2);
    copies := [];
    assert nodes1 + copies == nodes1 && es1 + es2[..0] == es1;
    if hle2 == null {
      return;
    }
    hide Values;
    var tail: HlEntry := FindTail(hle1, nodes1);
    ghost var i, all := 0, nodes1;
    var h := hle2;
    assert hle2 == nodes2[0];
    while h != null
      invariant i <= |nodes2| && h == if i < |nodes2| then nodes2[i] else null
      invariant |copies| == i && fresh(copies) && all == nodes1 + copies && all != []
      invariant Chain(hle1, all) && Chain(hle2, nodes2) && Values(nodes2) == es2
      invariant tail == all[|all| - 1] && tail !in nodes2
      invariant Values(all) == es1 + es2[..i]
      decreases |nodes2| - i
    {
      hide Chain, Values;
      ChainNext(hle2, nodes2, i);
      var n := Grow(tail, h.Value(), hle1, all);
      tail := n;
      AppendLast(nodes1, copies, n);
      TakeNext(es1, es2, i);
      copies, all := copies + [n], all + [n];
      h := h.next;
      i := i + 1;
    }
  }
}
