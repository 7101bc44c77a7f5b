/** The order of a least-recently-used cache, on key sequences. */
module LruOrder {

  function Without<K(==, !new)>(keys: seq<K>, k: K): (r: seq<K>)
    ensures k !in r
    ensures forall x :: x in r <==> x in keys && x != k
    ensures k !in keys ==> r == keys
  {
    if keys == [] then []
    else if keys[0] == k then Without(keys[1..], k)
    else [keys[0]] + Without(keys[1..], k)
  }

  /** The keys, oldest first, after `k` is requested from a cache of `max` entries. */
  function Request<K(==, !new)>(keys: seq<K>, k: K, max: nat): (r: seq<K>)
    requires max > 0
    ensures r != [] && r[|r| - 1] == k
  {
    if k in keys then Without(keys, k) + [k]
    else if |keys| < max then keys + [k]
    else keys[1..] + [k]
  }

  predicate Distinct<K(==, !new)>(keys: seq<K>) {
    forall i, j :: 0 <= i < j < |keys| ==> keys[i] != keys[j]
  }

  datatype Op<K> = Get(key: K) | Clear

  /** The keys after a run of requests and clears on an empty cache. */
  function Run<K(==, !new)>(ops: seq<Op<K>>, max: nat): seq<K>
    requires max > 0
  {
    if ops == [] then []
    else
      var keys := Run(ops[..|ops| - 1], max);
      match ops[|ops| - 1]
      case Get(k) => Request(keys, k, max)
      case Clear => []
  }

  /** All keys requested since the last clear, in the order of their last request. */
  function Recency<K(==, !new)>(ops: seq<Op<K>>): seq<K> {
    if ops == [] then []
    else
      var keys := Recency(ops[..|ops| - 1]);
      match ops[|ops| - 1]
      case Get(k) => Without(keys, k) + [k]
      case Clear => []
  }

  function Suffix<K>(s: seq<K>, n: nat): seq<K> {
    if |s| <= n then s else s[|s| - n..]
  }

  lemma {:induction false} WithoutConcat<K(!new)>(a: seq<K>, b: seq<K>, k: K)
    ensures Without(a + b, k) == Without(a, k) + Without(b, k)
  {
    if a == [] {
      assert a + b == b;
    } else {
      assert (a + b)[1..] == a[1..] + b;
      WithoutConcat(a[1..], b, k);
    }
  }

  lemma DistinctCons<K(!new)>(x: K, keys: seq<K>)
    requires Distinct(keys) && x !in keys
    ensures Distinct([x] + keys)
  {
  }

  lemma DistinctTail<K(!new)>(keys: seq<K>)
    requires keys != [] && Distinct(keys)
    ensures Distinct(keys[1..]) && keys[0] !in keys[1..]
  {
  }

  lemma {:induction false} WithoutDistinct<K(!new)>(keys: seq<K>, k: K)
    requires Distinct(keys)
    ensures Distinct(Without(keys, k))
    ensures |Without(keys, k)| == if k in keys then |keys| - 1 else |keys|
  {
    hide Distinct;
    if keys != [] {
      DistinctTail(keys);
      assert keys == [keys[0]] + keys[1..];
      WithoutDistinct(keys[1..], k);
      if keys[0] != k {
        DistinctCons(keys[0], Without(keys[1..], k));
      }
    } else {
      assert Distinct(Without(keys, k)) by { DistinctEmpty(Without(keys, k)); }
    }
  }

  lemma DistinctEmpty<K(!new)>(keys: seq<K>)
    requires keys == []
    ensures Distinct(keys)
  {
  }

  lemma {:induction false} RecencyDistinct<K(!new)>(ops: seq<Op<K>>)
    ensures Distinct(Recency(ops))
  {
    if ops != [] {
      var before := ops[..|ops| - 1];
      RecencyDistinct(before);
      match ops[|ops| - 1]
      case Get(k) => WithoutDistinct(Recency(before), k);
      case Clear =>
    }
  }

  lemma SplitDistinct<K(!new)>(a: seq<K>, b: seq<K>, k: K)
    requires Distinct(a + b)
    ensures Distinct(a) && Distinct(b) && (k in b ==> k !in a)
  {
    assert forall i :: 0 <= i < |a| ==> (a + b)[i] == a[i];
    assert forall j :: 0 <= j < |b| ==> (a + b)[|a| + j] == b[j];
  }

  /** A request commutes with cutting the recency list `gone + kept` down to the cache's size. */
  lemma RequestOfKept<K(!new)>(gone: seq<K>, kept: seq<K>, k: K, max: nat)
    requires max > 0 && Distinct(gone + kept)
    requires |kept| == max || (|kept| < max && gone == [])
    ensures Request(kept, k, max) == Suffix(Without(gone + kept, k) + [k], max)
  {
    hide Without, Distinct;
    SplitDistinct(gone, kept, k);
    WithoutConcat(gone, kept, k);
    WithoutDistinct(kept, k);
    WithoutDistinct(gone, k);
    var after := Without(gone + kept, k) + [k];
    if k in kept {
      assert after == gone + (Without(kept, k) + [k]);
    } else if |kept| < max {
      assert Without(gone, k) == [];
      assert after == kept + [k];
    } else {
      assert after == (Without(gone, k) + [kept[0]]) + (kept[1..] + [k]);
    }
  }

  lemma RequestOfSuffix<K(!new)>(all: seq<K>, k: K, max: nat)
    requires max > 0 && Distinct(all)
    ensures Request(Suffix(all, max), k, max) == Suffix(Without(all, k) + [k], max)
  {
    var cut := if |all| <= max then 0 else |all| - max;
    assert all == all[..cut] + all[cut..] && all[cut..] == Suffix(all, max);
    RequestOfKept(all[..cut], all[cut..], k, max);
  }

  /** The cache holds exactly the `max` most recently requested keys, in that order. */
  lemma {:induction false} RunIsRecency<K(!new)>(ops: seq<Op<K>>, max: nat)
    requires max > 0
    ensures Run(ops, max) == Suffix(Recency(ops), max)
  {
    if ops != [] {
      var before := ops[..|ops| - 1];
      RunIsRecency(before, max);
      RecencyDistinct(before);
      match ops[|ops| - 1]
      case Get(k) => RequestOfSuffix(Recency(before), k, max);
      case Clear =>
    }
  }

  /** After any run: no key twice, never more than `max`, and a larger cache holds at least
      what a smaller one does. */
  lemma RunBounds<K(!new)>(ops: seq<Op<K>>, max: nat, larger: nat)
    requires 0 < max <= larger
    ensures Distinct(Run(ops, max)) && |Run(ops, max)| <= max
    ensures forall k :: k in Run(ops, max) ==> k in Run(ops, larger)
  {
    RunIsRecency(ops, max);
    RunIsRecency(ops, larger);
    RecencyDistinct(ops);
  }

  /** The index of the last request of `k`, or -1 when there is none since the last clear. */
  function LastRequest<K(==, !new)>(ops: seq<Op<K>>, k: K): int {
    if ops == [] then -1
    else match ops[|ops| - 1]
      case Get(x) => if x == k then |ops| - 1 else LastRequest(ops[..|ops| - 1], k)
      case Clear => -1
  }

  /** Every key was requested since the last clear, and in the order of the list. */
  ghost predicate InRequestOrder<K(!new)>(ops: seq<Op<K>>, keys: seq<K>) {
    && (forall i :: 0 <= i < |keys| ==> 0 <= LastRequest(ops, keys[i]) < |ops|)
    && forall i, j :: 0 <= i < j < |keys| ==> LastRequest(ops, keys[i]) < LastRequest(ops, keys[j])
  }

  lemma OrderCons<K(!new)>(ops: seq<Op<K>>, x: K, keys: seq<K>)
    requires InRequestOrder(ops, keys) && 0 <= LastRequest(ops, x) < |ops|
    requires forall y :: y in keys ==> LastRequest(ops, x) < LastRequest(ops, y)
    ensures InRequestOrder(ops, [x] + keys)
  {
    hide LastRequest;
  }

  lemma OrderTail<K(!new)>(ops: seq<Op<K>>, keys: seq<K>)
    requires keys != [] && InRequestOrder(ops, keys)
    ensures InRequestOrder(ops, keys[1..]) && 0 <= LastRequest(ops, keys[0]) < |ops|
    ensures forall y :: y in keys[1..] ==> LastRequest(ops, keys[0]) < LastRequest(ops, y)
  {
    hide LastRequest;
  }

  lemma {:induction false} WithoutInOrder<K(!new)>(ops: seq<Op<K>>, keys: seq<K>, k: K)
    requires InRequestOrder(ops, keys)
    ensures InRequestOrder(ops, Without(keys, k))
  {
    hide LastRequest, InRequestOrder;
    if keys == [] {
    } else {
      OrderTail(ops, keys);
      WithoutInOrder(ops, keys[1..], k);
      if keys[0] != k {
        OrderCons(ops, keys[0], Without(keys[1..], k));
      }
    }
  }

  /** A request of another key leaves the order of the others alone. */
  lemma LaterRequest<K(!new)>(ops: seq<Op<K>>, keys: seq<K>, k: K)
    requires InRequestOrder(ops, keys) && k !in keys
    ensures InRequestOrder(ops + [Get(k)], keys + [k])
  {
    var now := ops + [Get(k)];
    assert now[..|now| - 1] == ops;
    assert forall i :: 0 <= i < |keys| ==> keys[i] in keys;
    assert forall x :: LastRequest(now, x) == if x == k then |ops| else LastRequest(ops, x);
  }

  /** The recency list holds exactly the keys requested since the last clear, ordered by the
      moment of their last request. */
  lemma {:induction false} RecencyOrder<K(!new)>(ops: seq<Op<K>>)
    ensures InRequestOrder(ops, Recency(ops))
    ensures forall k :: k in Recency(ops) <==> LastRequest(ops, k) >= 0
  {
    if ops != [] {
      var before := ops[..|ops| - 1];
      RecencyOrder(before);
      match ops[|ops| - 1]
      case Get(k) =>
        assert before + [Get(k)] == ops;
        WithoutInOrder(before, Recency(before), k);
        LaterRequest(before, Without(Recency(before), k), k);
      case Clear =>
    }
  }

  /** Removing the one occurrence of a key. */
  lemma {:induction false} WithoutAt<K(!new)>(keys: seq<K>, i: nat)
    requires Distinct(keys) && i < |keys|
    ensures Without(keys, keys[i]) == keys[..i] + keys[i + 1..]
  {
    DistinctTail(keys);
    if i == 0 {
      assert keys[..0] == [];
    } else {
      hide Without, Distinct;
      var tail := keys[1..];
      assert tail[i - 1] == keys[i] && keys[i] in tail;
      WithoutAt(tail, i - 1);
      WithoutLater(keys, keys[i]);
      DropLater(keys, i);
    }
  }

  lemma WithoutLater<K(!new)>(keys: seq<K>, k: K)
    requires keys != [] && keys[0] != k
    ensures Without(keys, k) == [keys[0]] + Without(keys[1..], k)
  {
  }

  lemma DropLater<K>(keys: seq<K>, i: nat)
    requires 0 < i < |keys|
    ensures [keys[0]] + (keys[1..][..i - 1] + keys[1..][i..]) == keys[..i] + keys[i + 1..]
  {
  }

  lemma {:induction false} DistinctSize<K(!new)>(keys: seq<K>, s: set<K>)
    requires Distinct(keys) && forall k :: k in s <==> k in keys
    ensures |s| == |keys|
    decreases |keys|
  {
    if keys == [] {
      assert s == {};
    } else {
      DistinctTail(keys);
      DistinctSize(keys[1..], s - {keys[0]});
    }
  }
}
