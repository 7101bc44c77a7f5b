/** The caches of compiled templates that forget what is least used (lib/python/mod_python/psp.py). */
module HitsCache {
  import opened Optional

  /** What is cached under a key: how often it was hit, and the value. */
  datatype Entry<V> = Entry(hits: nat, val: V)

  datatype Item<V> = Item(entry: Entry<V>, key: string)

  type Cache<V> = map<string, Entry<V>>

  /** How `sort` compares items: a total order in which hits come first, and no two keys are equal. */
  ghost predicate IsOrder<V(!new)>(le: (Item<V>, Item<V>) -> bool) {
    && (forall a, b :: le(a, b) || le(b, a))
    && (forall a, b :: le(a, b) && le(b, a) ==> a.key == b.key)
    && (forall a, b, c :: le(a, b) && le(b, c) ==> le(a, c))
    && (forall a, b :: le(a, b) ==> a.entry.hits <= b.entry.hits)
  }

  predicate IsSorted<V>(le: (Item<V>, Item<V>) -> bool, items: seq<Item<V>>) {
    forall i, j :: 0 <= i < j < |items| ==> le(items[i], items[j])
  }

  /** The items of a dictionary, each once. */
  ghost predicate AreItems<V>(items: seq<Item<V>>, cache: Cache<V>) {
    && (forall i :: 0 <= i < |items| ==> items[i].key in cache && items[i].entry == cache[items[i].key])
    && (forall k :: k in cache ==> Item(cache[k], k) in items)
    && KeysDiffer(items)
    && |items| == |cache|
  }

  ghost predicate KeysDiffer<V>(items: seq<Item<V>>) {
    forall i, j :: 0 <= i < j < |items| ==> items[i].key != items[j].key
  }

  function Insert<V>(le: (Item<V>, Item<V>) -> bool, x: Item<V>, items: seq<Item<V>>): (r: seq<Item<V>>)
    ensures multiset(r) == multiset{x} + multiset(items)
  {
    if items == [] || le(x, items[0]) then [x] + items
    else
      assert items == [items[0]] + items[1..];
      [items[0]] + Insert(le, x, items[1..])
  }

  function Sort<V>(le: (Item<V>, Item<V>) -> bool, items: seq<Item<V>>): (r: seq<Item<V>>)
    ensures multiset(r) == multiset(items)
  {
    if items == [] then []
    else
      assert items == [items[0]] + items[1..];
      Insert(le, items[0], Sort(le, items[1..]))
  }

  /** How many items `byhits[:len(self.cache)-int(self.size*.75)]` are: a negative bound counts from
      the end. */
  function Victims(len: nat, size: nat): (n: nat)
    ensures n <= len
  {
    var bound := len - 3 * size / 4;
    if bound >= 0 then bound else if len + bound >= 0 then len + bound else 0
  }

  lemma {:induction false} InsertIsSorted<V(!new)>(le: (Item<V>, Item<V>) -> bool, x: Item<V>, items: seq<Item<V>>)
    requires IsOrder(le) && IsSorted(le, items)
    ensures IsSorted(le, Insert(le, x, items))
  {
    if items == [] || le(x, items[0]) {
    } else {
      var r := Insert(le, x, items[1..]);
      InsertIsSorted(le, x, items[1..]);
      forall i | 0 <= i < |r|
        ensures le(items[0], r[i])
      {
        assert r[i] in multiset(r);
        assert r[i] in multiset{x} + multiset(items[1..]);
      }
    }
  }

  lemma {:induction false} SortIsSorted<V(!new)>(le: (Item<V>, Item<V>) -> bool, items: seq<Item<V>>)
    requires IsOrder(le)
    ensures IsSorted(le, Sort(le, items))
  {
    if items != [] {
      SortIsSorted(le, items[1..]);
      InsertIsSorted(le, items[0], Sort(le, items[1..]));
    }
  }

  lemma {:induction false} InsertKeysDiffer<V(!new)>(le: (Item<V>, Item<V>) -> bool, x: Item<V>, items: seq<Item<V>>)
    requires KeysDiffer(items) && forall y :: y in items ==> y.key != x.key
    ensures KeysDiffer(Insert(le, x, items))
  {
    if items == [] || le(x, items[0]) {
    } else {
      var r := Insert(le, x, items[1..]);
      InsertKeysDiffer(le, x, items[1..]);
      forall i | 0 <= i < |r|
        ensures items[0].key != r[i].key
      {
        assert r[i] in multiset(r);
        assert r[i] in multiset{x} + multiset(items[1..]);
      }
    }
  }

  lemma {:induction false} SortKeysDiffer<V(!new)>(le: (Item<V>, Item<V>) -> bool, items: seq<Item<V>>)
    requires KeysDiffer(items)
    ensures KeysDiffer(Sort(le, items))
  {
    if items != [] {
      SortKeysDiffer(le, items[1..]);
      forall y | y in Sort(le, items[1..])
        ensures y.key != items[0].key
      {
        assert y in multiset(Sort(le, items[1..]));
        assert y in items[1..];
      }
      InsertKeysDiffer(le, items[0], Sort(le, items[1..]));
    }
  }

  lemma SortMembers<V>(le: (Item<V>, Item<V>) -> bool, items: seq<Item<V>>)
    ensures |Sort(le, items)| == |items|
    ensures forall i :: 0 <= i < |items| ==> items[i] in Sort(le, items)
    ensures forall i :: 0 <= i < |items| ==> Sort(le, items)[i] in items
  {
    var r := Sort(le, items);
    hide Sort;
    assert |multiset(r)| == |multiset(items)|;
    forall i | 0 <= i < |items|
      ensures items[i] in r && r[i] in items
    {
      assert items[i] in multiset(items) && r[i] in multiset(r);
    }
  }

  /** Sorting gives the same items. */
  lemma SortedItems<V(!new)>(le: (Item<V>, Item<V>) -> bool, items: seq<Item<V>>, cache: Cache<V>)
    requires IsOrder(le) && AreItems(items, cache)
    ensures AreItems(Sort(le, items), cache) && IsSorted(le, Sort(le, items))
  {
    hide Sort, IsOrder, IsSorted, KeysDiffer;
    SortIsSorted(le, items);
    SortKeysDiffer(le, items);
    SortMembers(le, items);
  }

  /** The keys of the other items that sort before `x`. */
  ghost function Lesser<V>(le: (Item<V>, Item<V>) -> bool, cache: Cache<V>, x: Item<V>): set<string> {
    set k | k in cache && k != x.key && le(Item(cache[k], k), x)
  }

  /** `after` is `before` without the `n` entries that sort first; none of them was hit more than one
      that is left. */
  ghost predicate IsCleaned<V>(le: (Item<V>, Item<V>) -> bool, before: Cache<V>, after: Cache<V>, n: nat) {
    && (forall k :: k in after ==> k in before && after[k] == before[k])
    && (forall k :: k in before ==> (k in after <==> |Lesser(le, before, Item(before[k], k))| >= n))
    && n <= |before| && |after| == |before| - n
    && (forall k, l :: k in before && k !in after && l in after ==> before[k].hits <= before[l].hits)
  }

  function Keys<V>(items: seq<Item<V>>): (r: set<string>)
    ensures forall k :: k in r <==> exists j :: 0 <= j < |items| && items[j].key == k
  {
    set j | 0 <= j < |items| :: items[j].key
  }

  lemma KeysOfInit<V>(items: seq<Item<V>>)
    requires items != []
    ensures Keys(items) == Keys(items[..|items| - 1]) + {items[|items| - 1].key}
  {
    var init := items[..|items| - 1];
    hide Keys;
    forall k | k in Keys(items) && k != items[|items| - 1].key
      ensures k in Keys(init)
    {
      var j :| 0 <= j < |items| && items[j].key == k;
      assert init[j].key == k;
    }
    forall k | k in Keys(init)
      ensures k in Keys(items)
    {
      var j :| 0 <= j < |init| && init[j].key == k;
      assert items[j].key == k;
    }
    assert items[|items| - 1].key in Keys(items);
  }

  lemma {:induction false} KeysCount<V>(items: seq<Item<V>>)
    requires KeysDiffer(items)
    ensures |Keys(items)| == |items|
  {
    if items != [] {
      var init, last := items[..|items| - 1], items[|items| - 1];
      KeysCount(init);
      KeysOfInit(items);
      hide Keys;
      assert last.key !in Keys(init);
      assert |Keys(init) + {last.key}| == |Keys(init)| + 1;
    }
  }

  /** The next item of the list is deleted. */
  lemma DeleteNext<V>(byhits: seq<Item<V>>, before: Cache<V>, i: nat)
    requires i < |byhits|
    ensures before - Keys(byhits[..i]) - {byhits[i].key} == before - Keys(byhits[..i + 1])
  {
    hide Keys;
    KeysOfInit(byhits[..i + 1]);
    assert byhits[..i + 1][..i] == byhits[..i];
  }

  lemma PlaceOf<V>(byhits: seq<Item<V>>, cache: Cache<V>, k: string) returns (i: nat)
    requires AreItems(byhits, cache) && k in cache
    ensures i < |byhits| && byhits[i] == Item(cache[k], k)
  {
    assert Item(cache[k], k) in byhits;
    i :| 0 <= i < |byhits| && byhits[i] == Item(cache[k], k);
  }

  /** The items at the front are those with the keys that are deleted. */
  lemma IsInFront<V>(byhits: seq<Item<V>>, n: nat, i: nat)
    requires KeysDiffer(byhits) && n <= |byhits| && i < |byhits|
    ensures byhits[i].key in Keys(byhits[..n]) <==> i < n
  {
    if i < n {
      assert byhits[..n][i] == byhits[i];
    }
  }

  /** As many items sort before an item as there are before it in a sorted list. */
  lemma SortedPlace<V(!new)>(le: (Item<V>, Item<V>) -> bool, byhits: seq<Item<V>>, cache: Cache<V>, i: nat)
    requires IsOrder(le) && AreItems(byhits, cache) && IsSorted(le, byhits) && i < |byhits|
    ensures |Lesser(le, cache, byhits[i])| == i
  {
    var x, first := byhits[i], byhits[..i];
    forall k | k in Lesser(le, cache, x)
      ensures k in Keys(first)
    {
      var j := PlaceOf(byhits, cache, k);
      IsInFront(byhits, i, j);
    }
    forall k | k in Keys(first)
      ensures k in Lesser(le, cache, x)
    {
      var j :| 0 <= j < |first| && first[j].key == k;
      assert first[j] == byhits[j] && le(byhits[j], x);
    }
    assert Lesser(le, cache, x) == Keys(first);
    KeysCount(first);
  }

  /** The first items of a sorted list are those hit least. */
  lemma FirstAreHitLeast<V(!new)>(le: (Item<V>, Item<V>) -> bool, byhits: seq<Item<V>>, cache: Cache<V>, n: nat,
                                  k: string, l: string)
    requires IsOrder(le) && AreItems(byhits, cache) && IsSorted(le, byhits) && n <= |byhits|
    requires k in cache && l in cache && k in Keys(byhits[..n]) && l !in Keys(byhits[..n])
    ensures cache[k].hits <= cache[l].hits
  {
    var i := PlaceOf(byhits, cache, k);
    var j := PlaceOf(byhits, cache, l);
    IsInFront(byhits, n, i);
    IsInFront(byhits, n, j);
    assert le(byhits[i], byhits[j]);
  }

  lemma SurvivesIff<V(!new)>(le: (Item<V>, Item<V>) -> bool, byhits: seq<Item<V>>, cache: Cache<V>, n: nat, k: string)
    requires IsOrder(le) && AreItems(byhits, cache) && IsSorted(le, byhits) && n <= |byhits| && k in cache
    ensures k !in Keys(byhits[..n]) <==> |Lesser(le, cache, Item(cache[k], k))| >= n
  {
    hide IsOrder, IsSorted, Keys, Lesser;
    var i := PlaceOf(byhits, cache, k);
    SortedPlace(le, byhits, cache, i);
    IsInFront(byhits, n, i);
  }

  /** Without the first items of a sorted list, exactly those are left that enough others precede. */
  lemma FirstAreVictims<V(!new)>(le: (Item<V>, Item<V>) -> bool, byhits: seq<Item<V>>, cache: Cache<V>, n: nat)
    requires IsOrder(le) && AreItems(byhits, cache) && IsSorted(le, byhits) && n <= |byhits|
    ensures IsCleaned(le, cache, cache - Keys(byhits[..n]), n)
  {
    hide IsOrder, IsSorted, KeysDiffer, Keys, Lesser, AreItems;
    var first := Keys(byhits[..n]);
    forall k | k in cache
      ensures k !in first <==> |Lesser(le, cache, Item(cache[k], k))| >= n
    {
      SurvivesIff(le, byhits, cache, n, k);
    }
    forall k, l | k in cache && l in cache && k in first && l !in first
      ensures cache[k].hits <= cache[l].hits
    {
      FirstAreHitLeast(le, byhits, cache, n, k, l);
    }
    FirstCount(byhits, cache, n);
    ItemsCount(byhits, cache);
  }

  lemma ItemsCount<V>(items: seq<Item<V>>, cache: Cache<V>)
    requires AreItems(items, cache)
    ensures |items| == |cache|
  {
  }

  lemma FirstCount<V>(byhits: seq<Item<V>>, cache: Cache<V>, n: nat)
    requires AreItems(byhits, cache) && n <= |byhits|
    ensures |cache - Keys(byhits[..n])| == |cache| - n
  {
    var first := Keys(byhits[..n]);
    KeysCount(byhits[..n]);
    assert first <= cache.Keys;
    assert (cache - first).Keys == cache.Keys - first;
  }

  function Stored<V>(cache: Cache<V>, key: string, val: V): (r: Cache<V>)
    ensures |cache| <= |r| <= |cache| + 1
  {
    var r := cache[key := Entry(1, val)];
    assert r.Keys == cache.Keys + {key};
    r
  }

  /** Storing a value, and what is forgotten if that makes the cache too large. */
  ghost predicate IsStored<V>(le: (Item<V>, Item<V>) -> bool, size: nat, before: Cache<V>, key: string, val: V,
                              after: Cache<V>) {
    var full := Stored(before, key, val);
    if |full| <= size then after == full
    else |after| == 3 * size / 4 && IsCleaned(le, full, after, |full| - 3 * size / 4)
  }

  lemma StoredIs<V>(before: Cache<V>, key: string, val: V)
    ensures key in Stored(before, key, val) && Stored(before, key, val)[key] == Entry(1, val)
    ensures |Stored(before, key, val)| == |before| + (if key in before then 0 else 1)
  {
    assert Stored(before, key, val).Keys == before.Keys + {key};
    assert key in before ==> before.Keys + {key} == before.Keys;
  }

  lemma LesserStored<V>(le: (Item<V>, Item<V>) -> bool, before: Cache<V>, key: string, val: V)
    ensures Lesser(le, Stored(before, key, val), Item(Entry(1, val), key))
            == Lesser(le, before, Item(Entry(1, val), key))
  {
  }

  lemma KeptIff<V>(le: (Item<V>, Item<V>) -> bool, before: Cache<V>, after: Cache<V>, n: nat, k: string)
    requires IsCleaned(le, before, after, n) && k in before
    ensures k in after <==> |Lesser(le, before, Item(before[k], k))| >= n
    ensures k in after ==> after[k] == before[k]
  {
    hide Lesser;
  }

  /** A value is kept if and only if its key is cached already, or there is room for it, or enough
      entries sort before it: only then it is not among those forgotten at once. */
  lemma NewValueIsKeptIff<V>(le: (Item<V>, Item<V>) -> bool, size: nat, before: Cache<V>, key: string, val: V,
                             after: Cache<V>)
    requires |before| <= size && IsStored(le, size, before, key, val, after)
    ensures key in after <==>
            key in before || |before| < size
            || |Lesser(le, before, Item(Entry(1, val), key))| >= size + 1 - 3 * size / 4
    ensures key in after ==> after[key] == Entry(1, val)
  {
    hide Lesser, IsCleaned, Stored;
    StoredIs(before, key, val);
    LesserStored(le, before, key, val);
    var full := Stored(before, key, val);
    if |full| > size {
      KeptIff(le, full, after, |full| - 3 * size / 4, key);
    }
  }

  class HitsCache<V(!new)> {
    var cache: Cache<V>
    const size: nat
    const le: (Item<V>, Item<V>) -> bool

    constructor (size: nat, le: (Item<V>, Item<V>) -> bool)
      ensures cache == map[] && this.size == size && this.le == le
    {
      cache := map[];
      this.size, this.le := size, le;
    }

    /** The items in the order of the dictionary, whichever that is. */
    method Items() returns (items: seq<Item<V>>)
      ensures AreItems(items, cache)
    {
      items := [];
      var keys := cache.Keys;
      while keys != {}
        invariant keys <= cache.Keys && |items| + |keys| == |cache.Keys| == |cache|
        invariant forall i :: 0 <= i < |items| ==>
                    items[i].key in cache && items[i].key !in keys && items[i].entry == cache[items[i].key]
        invariant forall k :: k in cache && k !in keys ==> Item(cache[k], k) in items
        invariant KeysDiffer(items)
        decreases |keys|
      {
        var k :| k in keys;
        keys := keys - {k};
        items := items + [Item(cache[k], k)];
      }
    }

    method Clean()
      requires IsOrder(le)
      modifies `cache
      ensures IsCleaned(le, old(cache), cache, Victims(|old(cache)|, size))
    {
      hide IsOrder, IsSorted, KeysDiffer, IsCleaned, Sort, Keys;
      var items := Items();
      SortedItems(le, items, cache);
      var byhits := Sort(le, items);
      var n := Victims(|cache|, size);
      var i := 0;
      while i < n
        invariant i <= n && cache == old(cache) - Keys(byhits[..i])
      {
        DeleteNext(byhits, old(cache), i);
        cache := cache - {byhits[i].key};
        i := i + 1;
      }
      FirstAreVictims(le, byhits, old(cache), n);
    }

    method Store(key: string, val: V)
      requires IsOrder(le) && |cache| <= size
      modifies `cache
      ensures IsStored(le, size, old(cache), key, val, cache)
      ensures |cache| <= size
    {
      hide IsOrder, IsCleaned;
      cache := cache[key := Entry(1, val)];
      assert cache == Stored(old(cache), key, val);
      if |cache| > size {
        Clean();
        CleanedSize(le, Stored(old(cache), key, val), cache, Victims(size + 1, size));
      }
    }

    method Get(key: string) returns (val: Option<V>)
      modifies `cache
      ensures val == if key in old(cache) then Some(old(cache)[key].val) else None
      ensures cache == if key in old(cache)
                       then old(cache)[key := Entry(old(cache)[key].hits + 1, old(cache)[key].val)] else old(cache)
    {
      if key in cache {
        var Entry(hits, v) := cache[key];
        cache := cache[key := Entry(hits + 1, v)];
        val := Some(v);
      } else {
        val := None;
      }
    }
  }

  lemma CleanedSize<V>(le: (Item<V>, Item<V>) -> bool, before: Cache<V>, after: Cache<V>, n: nat)
    requires IsCleaned(le, before, after, n)
    ensures |after| == |before| - n
  {
  }

  /** A lookup in the cache of files: an entry with another time is deleted. */
  ghost predicate IsLookedUp<C>(before: Cache<(int, C)>, filename: string, mtime: int, result: Option<C>,
                                after: Cache<(int, C)>) {
    if filename in before && before[filename].val.0 == mtime then
      && result == Some(before[filename].val.1)
      && after == before[filename := Entry(before[filename].hits + 1, before[filename].val)]
    else result == None && after == before - {filename}
  }

  /** The cache of files: the values are times and codes. */
  class FileCache<C(!new)> {
    const base: HitsCache<(int, C)>

    constructor (size: nat, le: (Item<(int, C)>, Item<(int, C)>) -> bool)
      ensures fresh(base) && base.cache == map[] && base.size == size && base.le == le
    {
      base := new HitsCache(size, le);
    }

    method Store(filename: string, mtime: int, code: C)
      requires IsOrder(base.le) && |base.cache| <= base.size
      modifies base`cache
      ensures IsStored(base.le, base.size, old(base.cache), filename, (mtime, code), base.cache)
      ensures |base.cache| <= base.size
    {
      base.Store(filename, (mtime, code));
    }

    method Get(filename: string, mtime: int) returns (result: Option<C>)
      modifies base`cache
      ensures IsLookedUp(old(base.cache), filename, mtime, result, base.cache)
    {
      if filename in base.cache {
        var Entry(hits, val) := base.cache[filename];
        if mtime != val.0 {
          base.cache := base.cache - {filename};
          result := None;
        } else {
          base.cache := base.cache[filename := Entry(hits + 1, (mtime, val.1))];
          result := Some(val.1);
        }
      } else {
        assert base.cache == base.cache - {filename};
        result := None;
      }
    }
  }

  datatype Op<C> = Put(filename: string, mtime: int, code: C)
                 | Lookup(filename: string, mtime: int, result: Option<C>)

  type Comparison<!C> = (Item<(int, C)>, Item<(int, C)>) -> bool

  ghost predicate IsStep<C>(le: Comparison<C>, size: nat, before: Cache<(int, C)>, op: Op<C>, after: Cache<(int, C)>) {
    match op
    case Put(f, t, code) => IsStored(le, size, before, f, (t, code), after)
    case Lookup(f, t, result) => IsLookedUp(before, f, t, result, after)
  }

  /** A run of a cache that is empty at first: the caches before and after its operations. */
  ghost predicate IsRun<C>(le: Comparison<C>, size: nat, ops: seq<Op<C>>, caches: seq<Cache<(int, C)>>) {
    && |caches| == |ops| + 1 && caches[0] == map[]
    && forall i :: 0 <= i < |ops| ==> IsStep(le, size, caches[i], ops[i], caches[i + 1])
  }

  /** The time and code last stored for a file. */
  function LastStored<C>(ops: seq<Op<C>>, filename: string): Option<(int, C)> {
    if ops == [] then None
    else
      var op := ops[|ops| - 1];
      if op.Put? && op.filename == filename then Some((op.mtime, op.code))
      else LastStored(ops[..|ops| - 1], filename)
  }

  /** One for the last time the file was stored, and one for each hit since; none after a lookup that
      found nothing, or nothing of that time. */
  function HitsSince<C>(ops: seq<Op<C>>, filename: string): nat {
    if ops == [] then 0
    else
      var op := ops[|ops| - 1];
      if op.filename != filename then HitsSince(ops[..|ops| - 1], filename)
      else if op.Put? then 1
      else if op.result.None? then 0
      else HitsSince(ops[..|ops| - 1], filename) + 1
  }

  /** What is cached is what was stored last, and fits. */
  ghost predicate IsCurrent<C>(size: nat, ops: seq<Op<C>>, cache: Cache<(int, C)>) {
    |cache| <= size &&
    forall f :: f in cache ==>
      LastStored(ops, f) == Some(cache[f].val) && HitsSince(ops, f) == cache[f].hits && cache[f].hits > 0
  }

  lemma StoredAreKept<V>(le: (Item<V>, Item<V>) -> bool, size: nat, before: Cache<V>, key: string, val: V,
                         after: Cache<V>)
    requires IsStored(le, size, before, key, val, after)
    ensures |after| <= size
    ensures forall k :: k in after ==>
              if k == key then after[k] == Entry(1, val) else k in before && after[k] == before[k]
  {
    hide Lesser;
    assert forall k :: k in after ==> k in Stored(before, key, val);
  }

  lemma PutKeepsCurrent<C>(le: Comparison<C>, size: nat, ops: seq<Op<C>>, before: Cache<(int, C)>, op: Op<C>,
                           after: Cache<(int, C)>)
    requires IsCurrent(size, ops, before) && op.Put? && IsStep(le, size, before, op, after)
    ensures IsCurrent(size, ops + [op], after)
  {
    assert (ops + [op])[..|ops|] == ops;
    hide IsStored;
    StoredAreKept(le, size, before, op.filename, (op.mtime, op.code), after);
  }

  lemma LookupKeepsCurrent<C>(le: Comparison<C>, size: nat, ops: seq<Op<C>>, before: Cache<(int, C)>, op: Op<C>,
                              after: Cache<(int, C)>)
    requires IsCurrent(size, ops, before) && op.Lookup? && IsStep(le, size, before, op, after)
    ensures IsCurrent(size, ops + [op], after)
  {
    assert (ops + [op])[..|ops|] == ops;
    hide IsStored;
    assert after.Keys <= before.Keys;
    SubsetSize(after.Keys, before.Keys);
  }

  lemma SubsetSize<T>(a: set<T>, b: set<T>)
    requires a <= b
    ensures |a| <= |b|
  {
    assert b == a + (b - a);
  }

  lemma RunStep<C>(le: Comparison<C>, size: nat, ops: seq<Op<C>>, caches: seq<Cache<(int, C)>>, i: nat)
    requires IsRun(le, size, ops, caches) && i <= |ops|
    ensures |caches| == |ops| + 1
    ensures i < |ops| ==> IsStep(le, size, caches[i], ops[i], caches[i + 1])
    ensures IsCurrent(size, [], caches[0])
  {
    hide IsStep;
  }

  lemma {:induction false} RunIsCurrent<C>(le: Comparison<C>, size: nat, ops: seq<Op<C>>,
                                           caches: seq<Cache<(int, C)>>, i: nat)
    requires IsRun(le, size, ops, caches) && i <= |ops|
    ensures |caches| == |ops| + 1
    ensures IsCurrent(size, ops[..i], caches[i])
  {
    hide IsStep, IsCurrent, IsRun;
    RunStep(le, size, ops, caches, 0);
    if i > 0 {
      RunStep(le, size, ops, caches, i - 1);
      RunIsCurrent(le, size, ops, caches, i - 1);
      assert ops[..i] == ops[..i - 1] + [ops[i - 1]];
      if ops[i - 1].Put? {
        PutKeepsCurrent(le, size, ops[..i - 1], caches[i - 1], ops[i - 1], caches[i]);
      } else {
        LookupKeepsCurrent(le, size, ops[..i - 1], caches[i - 1], ops[i - 1], caches[i]);
      }
    } else {
      assert ops[..0] == [];
    }
  }

  /** In every run, a hit returns the code last stored for the file, and that with the time asked
      for; the hits noted, by which the cache forgets, are those since then; and the cache never exceeds
      its size. */
  lemma HitsAreLastStored<C>(le: Comparison<C>, size: nat, ops: seq<Op<C>>, caches: seq<Cache<(int, C)>>, i: nat)
    requires IsRun(le, size, ops, caches) && i < |ops| && ops[i].Lookup?
    ensures |caches[i]| <= size
    ensures forall f :: f in caches[i] ==> caches[i][f].hits == HitsSince(ops[..i], f) > 0
    ensures ops[i].result.Some? ==> LastStored(ops[..i], ops[i].filename) == Some((ops[i].mtime, ops[i].result.value))
  {
    RunIsCurrent(le, size, ops, caches, i);
    assert IsStep(le, size, caches[i], ops[i], caches[i + 1]);
  }
}
