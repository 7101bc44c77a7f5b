/** The bounded cache: a dictionary and a circular access list
    (`Cache`, lib/python/mod_python/cache.py). */
module LruCache {
  import opened LruOrder
  import opened Optional

  class Entry<K(==, !new), V> {
    const key: Option<K>
    var value: Option<V>
    var prev: Entry?<K, V>
    var next: Entry?<K, V>

    constructor (key: Option<K>)
      ensures this.key == key && value == None && prev == null && next == null
    {
      this.key, value, prev, next := key, None, null, null;
    }
  }

  ghost predicate Injective<T>(s: seq<T>) {
    forall i, j :: 0 <= i < j < |s| ==> s[i] != s[j]
  }

  /** The list visits exactly the dictionary's entries, each once, each under its key. */
  ghost predicate Indexed<K(!new), V>(dict: map<K, Entry<K, V>>, ring: seq<Entry<K, V>>, keys: seq<K>) {
    && |ring| == |keys| && Distinct(keys)
    && (forall k :: k in dict <==> k in keys)
    && (forall i :: 0 <= i < |keys| ==>
          keys[i] in dict && dict[keys[i]] == ring[i] && ring[i].key == Some(keys[i]))
  }

  lemma IndexedSize<K(!new), V>(dict: map<K, Entry<K, V>>, ring: seq<Entry<K, V>>, keys: seq<K>)
    requires Indexed(dict, ring, keys)
    ensures |dict| == |keys| == |ring|
  {
    DistinctSize(keys, dict.Keys);
  }

  lemma IndexedKey<K(!new), V>(dict: map<K, Entry<K, V>>, ring: seq<Entry<K, V>>, keys: seq<K>, k: K)
    requires Indexed(dict, ring, keys)
    ensures k in dict <==> k in keys
  {
  }

  lemma EntryIndex<K(!new), V>(dict: map<K, Entry<K, V>>, ring: seq<Entry<K, V>>, keys: seq<K>, k: K)
    returns (i: nat)
    requires Indexed(dict, ring, keys) && k in dict
    ensures i < |ring| == |keys| && keys[i] == k && ring[i] == dict[k]
  {
    i :| i < |keys| && keys[i] == k;
  }

  lemma AppendIndexed<K(!new), V>(dict: map<K, Entry<K, V>>, ring: seq<Entry<K, V>>, keys: seq<K>,
                                  k: K, e: Entry<K, V>)
    requires Indexed(dict, ring, keys) && e.key == Some(k) && k !in dict
    ensures Indexed(dict[k := e], ring + [e], keys + [k])
    ensures |dict[k := e]| == |keys| + 1
  {
    assert forall i :: 0 <= i < |keys| ==> keys[i] in keys;
    IndexedSize(dict[k := e], ring + [e], keys + [k]);
  }

  /** A list with its `i`-th entry moved to the end. */
  function Moved<T>(s: seq<T>, i: nat): (r: seq<T>)
    requires i < |s|
    ensures |r| == |s|
  {
    s[..i] + s[i + 1..] + [s[i]]
  }

  /** Where the `j`-th entry of the moved list was. */
  function MovedFrom(n: nat, i: nat, j: nat): (k: nat)
    requires i < n && j < n
    ensures k < n
  {
    if j < i then j else if j < n - 1 then j + 1 else i
  }

  lemma MovedAt<T>(s: seq<T>, i: nat, j: nat)
    requires i < |s| && j < |s|
    ensures Moved(s, i)[j] == s[MovedFrom(|s|, i, j)]
  {
  }

  lemma MovedKeys<K(!new)>(keys: seq<K>, i: nat)
    requires Distinct(keys) && i < |keys|
    ensures Moved(keys, i) == Without(keys, keys[i]) + [keys[i]]
    ensures Distinct(Moved(keys, i))
    ensures forall k :: k in keys <==> k in Moved(keys, i)
  {
    hide Without;
    WithoutAt(keys, i);
    WithoutDistinct(keys, keys[i]);
  }

  lemma MoveIndexed<K(!new), V>(dict: map<K, Entry<K, V>>, ring: seq<Entry<K, V>>, keys: seq<K>, i: nat)
    requires Indexed(dict, ring, keys) && i < |ring|
    ensures Indexed(dict, Moved(ring, i), Moved(keys, i))
    ensures Moved(keys, i) == Without(keys, keys[i]) + [keys[i]]
  {
    hide Without, Moved;
    MovedKeys(keys, i);
    forall j | 0 <= j < |keys|
      ensures Moved(keys, i)[j] in dict && dict[Moved(keys, i)[j]] == Moved(ring, i)[j]
      ensures Moved(ring, i)[j].key == Some(Moved(keys, i)[j])
    {
      MovedAt(keys, i, j);
      MovedAt(ring, i, j);
    }
  }

  lemma DropFirstIndexed<K(!new), V>(dict: map<K, Entry<K, V>>, ring: seq<Entry<K, V>>, keys: seq<K>)
    requires Indexed(dict, ring, keys) && keys != []
    ensures ring != [] && Indexed(dict - {keys[0]}, ring[1..], keys[1..])
    ensures ring[0].key == Some(keys[0]) && dict[keys[0]] == ring[0]
  {
    DistinctTail(keys);
  }

  class Cache<K(==, !new), V> {
    const maxSize: nat
    const head: Entry<K, V>
    var dict: map<K, Entry<K, V>>
    // the entries on the access list, least recently requested first
    ghost var ring: seq<Entry<K, V>>
    // their keys
    ghost var keys: seq<K>

    /** Walking forward from the head visits the ring and comes back, and walking backward
        visits it in reverse. */
    ghost predicate Linked()
      reads this`ring, head`next, head`prev, ring`next, ring`prev
    {
      && head !in ring && head.key == None && Injective(ring)
      && (ring == [] ==> head.next == head && head.prev == head)
      && (ring != [] ==>
            && head.next == ring[0] && ring[0].prev == head
            && head.prev == ring[|ring| - 1] && ring[|ring| - 1].next == head)
      && (forall i {:trigger ring[i].next} :: 0 <= i < |ring| - 1 ==> ring[i].next == ring[i + 1])
      && (forall i {:trigger ring[i].prev} :: 1 <= i < |ring| ==> ring[i].prev == ring[i - 1])
    }

    ghost predicate Valid()
      reads this`dict, this`ring, this`keys, head`next, head`prev, ring`next, ring`prev
    {
      Linked() && Indexed(dict, ring, keys) && 0 < maxSize && |dict| <= maxSize
    }

    constructor (max: nat)
      requires max > 0
      ensures Valid() && dict == map[] && keys == [] && maxSize == max
    {
      maxSize := max;
      head := new Entry(None);
      dict, ring, keys := map[], [], [];
      new;
      head.prev := head;
      head.next := head;
    }

    method Lru() returns (key: Option<K>)
      requires Valid()
      ensures key == if keys == [] then None else Some(keys[0])
    {
      key := head.next.key;
    }

    method Mru() returns (key: Option<K>)
      requires Valid()
      ensures key == if keys == [] then None else Some(keys[|keys| - 1])
    {
      key := head.prev.key;
    }

    method Clear()
      requires Valid()
      modifies this, head`next, head`prev
      ensures Valid() && keys == [] && dict == map[]
    {
      dict := map[];
      head.next := head;
      head.prev := head;
      ring, keys := [], [];
    }

    /** Takes the `i`-th entry off the list. */
    method Unlink(entry: Entry<K, V>, ghost i: nat)
      requires Linked() && i < |ring| && ring[i] == entry
      modifies this`ring, head`next, head`prev, ring`next, ring`prev
      ensures Linked() && ring == old(ring)[..i] + old(ring)[i + 1..]
    {
      entry.prev.next := entry.next;
      entry.next.prev := entry.prev;
      ring := ring[..i] + ring[i + 1..];
    }
  
    method UnlinkFirst(entry: Entry<K, V>)
      requires Linked() && ring != [] && ring[0] == entry
      modifies this`ring, head`next, head`prev, ring`next, ring`prev
      ensures Linked() && ring == old(ring)[1..]
    {
      Unlink(entry, 0);
      assert ring == old(ring)[1..];
    }

    /** Puts an entry that is off the list at its end. */
    method LinkLast(entry: Entry<K, V>)
      requires Linked() && entry !in ring && entry != head
      modifies this`ring, head`next, head`prev, ring`next, ring`prev, entry`next, entry`prev
      ensures Linked() && ring == old(ring) + [entry]
    {
      entry.prev := head.prev;
      entry.prev.next := entry;
      entry.next := head;
      entry.next.prev := entry;
      // the list is not empty any more, so the test `self._head._next is self._head` fails
      assert head.next != head;
      ring := ring + [entry];
    }

    /** Moves the `i`-th entry to the end of the list, or adds an entry that is off it. */
    method Access(entry: Entry<K, V>, ghost i: nat)
      requires Linked() && entry != head
      requires if i < |ring| then ring[i] == entry
               else entry !in ring && entry.prev == null && entry.next == null
      modifies this`ring, head`next, head`prev, ring`next, ring`prev, entry`next, entry`prev
      ensures Linked()
      ensures ring == if i < |old(ring)| then Moved(old(ring), i) else old(ring) + [entry]
    {
      if entry.next != head {
        if entry.prev != null {
          Unlink(entry, i);
        }
        LinkLast(entry);
      } else {
        assert i == |ring| - 1;
        assert ring == Moved(ring, i);
      }
    }

    lemma OpenValid()
      requires Valid()
      ensures Linked() && Indexed(dict, ring, keys) && 0 < maxSize && |dict| == |keys| <= maxSize
    {
      IndexedSize(dict, ring, keys);
    }

    lemma ValidFrom()
      requires Linked() && Indexed(dict, ring, keys) && 0 < maxSize && |dict| <= maxSize
      ensures Valid()
    {
    }

    lemma FirstOnList()
      requires Linked() && ring != []
      ensures head.next == ring[0] && head !in ring
    {
    }

    method DropOldest()
      requires Linked() && Indexed(dict, ring, keys) && keys != []
      modifies this, head`next, head`prev, ring`next, ring`prev
      ensures Linked() && Indexed(dict, ring, keys)
      ensures keys == old(keys)[1..] && dict == old(dict) - {old(keys)[0]}
    {
      hide Linked, Indexed;
      DropFirstIndexed(dict, ring, keys);
      FirstOnList();
      var lru := head.next;
      UnlinkFirst(lru);
      dict := dict - {lru.key.value};
      keys := keys[1..];
    }

    /** Drops the least recently requested entry when there are too many. */
    method CheckLru()
      requires Linked() && Indexed(dict, ring, keys) && 0 < maxSize && |dict| <= maxSize + 1
      modifies this, head`next, head`prev, ring`next, ring`prev
      ensures Valid()
      ensures keys == if |old(keys)| > maxSize then old(keys)[1..] else old(keys)
      ensures dict == if |old(keys)| > maxSize then old(dict) - {old(keys)[0]} else old(dict)
    {
      hide Linked, Indexed, Valid;
      IndexedSize(dict, ring, keys);
      if |dict| > maxSize {
        DropOldest();
        IndexedSize(dict, ring, keys);
      }
      ValidFrom();
    }

    method AddEntry(key: K) returns (entry: Entry<K, V>)
      requires Valid() && key !in dict
      modifies this, head`next, head`prev, ring`next, ring`prev
      ensures Linked() && Indexed(dict, ring, keys) && |dict| == |keys|
      ensures keys == old(keys) + [key] && dict == old(dict)[key := entry]
      ensures fresh(entry) && entry.value == None
      ensures ring == old(ring) + [entry]
    {
      hide Linked, Indexed, Valid;
      OpenValid();
      entry := new Entry(Some(key));
      AppendIndexed(dict, ring, keys, key, entry);
      Access(entry, |ring|);
      dict, keys := dict[key := entry], keys + [key];
    }

    method Touch(entry: Entry<K, V>, ghost key: K)
      requires Valid() && key in dict && dict[key] == entry
      modifies this`ring, this`keys, head`next, head`prev, ring`next, ring`prev
      ensures Valid() && keys == Without(old(keys), key) + [key]
    {
      hide Linked, Indexed, Valid;
      OpenValid();
      ghost var i := EntryIndex(dict, ring, keys, key);
      FirstOnList();
      MoveIndexed(dict, ring, keys, i);
      Access(entry, i);
      keys := Moved(keys, i);
      ValidFrom();
    }

    /** A request for a key that is not cached. */
    method AddBounded(key: K) returns (entry: Entry<K, V>)
      requires Valid() && key !in dict && key !in keys
      modifies this, head`next, head`prev, ring`next, ring`prev
      ensures Valid() && keys == Request(old(keys), key, maxSize)
      ensures key in dict && dict[key] == entry && fresh(entry) && entry.value == None
      ensures forall k :: k in dict && k != key ==> k in old(dict) && dict[k] == old(dict)[k]
    {
      hide Linked, Indexed, Valid;
      OpenValid();
      entry := AddEntry(key);
      CheckLru();
      OpenValid();
      IndexedKey(dict, ring, keys, key);
    }

    /** Every request moves or adds its key at the end, and only an addition that would exceed
        the limit costs the oldest key its place. */
    method GetEntry(key: K) returns (entry: Entry<K, V>)
      requires Valid()
      modifies this, head`next, head`prev, ring`next, ring`prev
      ensures Valid() && keys == Request(old(keys), key, maxSize)
      ensures key in dict && dict[key] == entry
      ensures forall k :: k in dict && k != key ==> k in old(dict) && dict[k] == old(dict)[k]
      ensures if key in old(dict) then dict == old(dict) && entry == old(dict)[key]
              else fresh(entry) && entry.value == None
    {
      hide Linked, Indexed, Valid;
      OpenValid();
      IndexedKey(dict, ring, keys, key);
      if key !in dict {
        entry := AddBounded(key);
      } else {
        entry := dict[key];
        Touch(entry, key);
      }
    }
  }
}
