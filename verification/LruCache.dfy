/** LruCache of src/dimserver/storage/buffer/lru_cache.h: a list of nodes and a table of the nodes by
    key, kept in step. */
module LruCache {
  import opened Options
  import opened Recency

  /** A node of the list.  Its address is what an iterator holds: it stays the same when the node is
      spliced to another place or gets another value. */
  datatype CacheItem<K, V> = CacheItem(address: int, key: K, value: V)

  class LruCache<K(==), V> {
    /** The list, most recently used first. */
    var items: seq<CacheItem<K, V>>
    /** For each key the address of its node. */
    var lookup: map<K, int>
    /** Where the allocator puts the next node. */
    var unused: int

    ghost predicate Valid()
      reads this
    {
      Linked(items, lookup, unused)
    }

    ghost function Contents(): Contents<K, V>
      reads this
    {
      Pairs(items)
    }

    constructor ()
      ensures Valid() && Contents() == []
    {
      items, lookup, unused := [], map[], 0;
    }

    method Destroy()
      modifies this
      ensures Valid() && Contents() == []
    {
      items, lookup := [], map[];
    }

    /** The place in the list of the node an iterator points to. */
    method Find(node: int) returns (at: nat)
      requires Valid() && exists i :: 0 <= i < |items| && items[i].address == node
      ensures at < |items| && items[at].address == node
    {
      at := 0;
      while items[at].address != node
        invariant at < |items| && forall i :: 0 <= i < at ==> items[i].address != node
        decreases |items| - at
      {
        at := at + 1;
      }
    }

    /** Moves the node to the front of the list. */
    method Splice(node: int)
      requires Valid() && exists i :: 0 <= i < |items| && items[i].address == node
      modifies this`items
      ensures Valid() && |items| == |old(items)| && items[0].address == node
      ensures exists i :: 0 <= i < |items| && old(items)[i] == items[0]
      ensures Contents() == [(items[0].key, items[0].value)] + Without(old(Contents()), items[0].key)
    {
      var i := Find(node);
      LinkedMove(items, lookup, unused, i);
      MovedTaken(items, i);
      PairsMove(items, i);
      PairsNoDup(items, lookup, unused);
      WithoutAt(Pairs(items), i);
      hide Linked, Pairs, Without;
      items := Moved(items, i);
    }

    method Get(key: K) returns (value: Option<V>)
      requires Valid()
      modifies this`items
      ensures Valid() && Contents() == Touch(old(Contents()), key)
      ensures value == if Has(old(Contents()), key) then Some(ValueOf(old(Contents()), key)) else None
    {
      KeyListed(key);
      if key !in lookup {
        return None;
      }
      Splice(lookup[key]);
      return Some(items[0].value);
    }

    method PutItem(key: K, value: V)
      requires Valid()
      modifies this
      ensures Valid() && Contents() == Put(old(Contents()), key, value)
    {
      KeyListed(key);
      if key in lookup {
        var i := Find(lookup[key]);
        StoreKeeps(items, lookup, unused, i, value);
        PairsNoDup(items, lookup, unused);
        PairsNoDup(items[i := items[i].(value := value)], lookup, unused);
        StorePairs(items, i, value);
        hide Linked, Pairs, Without;
        items := items[i := items[i].(value := value)];
        Splice(lookup[key]);
        return;
      }
      WithoutMissing(Contents(), key);
      var node := CacheItem(unused, key, value);
      LinkedPush(items, lookup, unused, node);
      PairsPush(items, node);
      hide Linked, Pairs, Without;
      items := [node] + items;
      lookup := lookup[key := unused];
      unused := unused + 1;
    }

    method Remove(key: K)
      requires Valid()
      modifies this
      ensures Valid() && Contents() == Without(old(Contents()), key)
    {
      KeyListed(key);
      if key in lookup {
        var i := Find(lookup[key]);
        LinkedErase(items, lookup, unused, i);
        PairsMove(items, i);
        PairsNoDup(items, lookup, unused);
        WithoutAt(Contents(), i);
        hide Linked, Pairs, Without;
        items := Erased(items, i);
        lookup := lookup - {key};
      } else {
        WithoutMissing(Contents(), key);
      }
    }

    method PopItem() returns (value: Option<V>)
      requires Valid()
      modifies this
      ensures Valid() && Contents() == Pop(old(Contents()))
      ensures value == if old(Contents()) == [] then None else Some(old(Contents())[|old(items)| - 1].1)
    {
      if items == [] {
        return None;
      }
      ghost var n := |items| - 1;
      LinkedErase(items, lookup, unused, n);
      assert Erased(items, n) == items[..n];
      assert Pairs(items[..n]) == Pairs(items)[..n];
      hide Linked;
      var last := items[|items| - 1];
      value := Some(last.value);
      lookup := lookup - {last.key};
      items := items[..|items| - 1];
    }

    /** Calls `func` from the least recently used entry on until it returns false; `visited` are the
        entries it was called on. */
    method ForeachReverse(func: (K, V) -> bool) returns (visited: Contents<K, V>)
      requires Valid()
      ensures |visited| <= |items|
      ensures forall i :: 0 <= i < |visited| ==> visited[i] == Contents()[|items| - 1 - i]
      ensures forall i :: 0 <= i < |visited| - 1 ==> func(visited[i].0, visited[i].1)
      ensures |visited| < |items| ==> visited != [] && !func(visited[|visited| - 1].0, visited[|visited| - 1].1)
    {
      visited := [];
      var n := |items|;
      while n > 0
        invariant 0 <= n <= |items| && |visited| == |items| - n
        invariant forall i :: 0 <= i < |visited| ==> visited[i] == Contents()[|items| - 1 - i]
        invariant forall i :: 0 <= i < |visited| ==> func(visited[i].0, visited[i].1)
      {
        n := n - 1;
        visited := visited + [(items[n].key, items[n].value)];
        if !func(items[n].key, items[n].value) {
          break;
        }
      }
    }

    lemma KeyListed(key: K)
      requires Valid()
      ensures key in lookup <==> Has(Contents(), key)
      ensures key in lookup ==> exists i :: 0 <= i < |items| && items[i].address == lookup[key]
      ensures forall i :: 0 <= i < |items| && key in lookup && items[i].address == lookup[key] ==>
                items[i].key == key && ValueOf(Contents(), key) == items[i].value
    {
      if key in lookup {
        assert Listed(items, key);
        var i :| 0 <= i < |items| && items[i].key == key;
        assert Contents()[i].0 == key;
        PairsNoDup(items, lookup, unused);
        ValueAt(Contents(), i);
      }
    }
  }

  ghost function Pairs<K, V>(items: seq<CacheItem<K, V>>): Contents<K, V> {
    seq(|items|, i requires 0 <= i < |items| => (items[i].key, items[i].value))
  }

  /** Every node is listed once, and the table maps exactly the listed keys, each to its node. */
  ghost predicate Linked<K, V>(items: seq<CacheItem<K, V>>, lookup: map<K, int>, unused: int) {
    && (forall i, j :: 0 <= i < j < |items| ==> items[i].address != items[j].address)
    && (forall i :: 0 <= i < |items| ==> items[i].address < unused)
    && (forall i :: 0 <= i < |items| ==> items[i].key in lookup && lookup[items[i].key] == items[i].address)
    && (forall k <- lookup :: Listed(items, k))
  }

  ghost predicate Listed<K, V>(items: seq<CacheItem<K, V>>, key: K) {
    exists i :: 0 <= i < |items| && items[i].key == key
  }

  function Erased<T>(items: seq<T>, i: nat): seq<T>
    requires i < |items|
  {
    items[..i] + items[i + 1..]
  }

  function Moved<T>(items: seq<T>, i: nat): seq<T>
    requires i < |items|
  {
    [items[i]] + Erased(items, i)
  }

  lemma {:induction false} ListedFrom<K, V>(items: seq<CacheItem<K, V>>, t: seq<CacheItem<K, V>>, k: K, i: nat)
    requires i < |items| && (t == Moved(items, i) || (t == Erased(items, i) && k != items[i].key))
    ensures Listed(items, k) ==> Listed(t, k)
  {
    if Listed(items, k) {
      var j :| 0 <= j < |items| && items[j].key == k;
      if t == Moved(items, i) {
        assert t[if j == i then 0 else if j < i then j + 1 else j] == items[j];
      } else {
        assert t[if j < i then j else j - 1] == items[j];
      }
    }
  }

  /** The old places of the nodes of a list after node i went to the front. */
  function MovedFrom(n: nat, i: nat): (from: seq<nat>)
    requires i < n
  {
    seq(n, j requires 0 <= j => if j == 0 then i else if j <= i then j - 1 else j)
  }

  /** The old places of the nodes of a list after node i left. */
  function ErasedFrom(n: nat, i: nat): (from: seq<nat>)
    requires i < n
  {
    seq(n - 1, j requires 0 <= j => if j < i then j else j + 1)
  }

  /** Node j of t is node from[j] of the list, and these are all different. */
  ghost predicate Taken<T>(items: seq<T>, t: seq<T>, from: seq<nat>) {
    && |t| == |from|
    && (forall j :: 0 <= j < |t| ==> from[j] < |items| && t[j] == items[from[j]])
    && (forall j, k :: 0 <= j < k < |from| ==> from[j] != from[k])
  }

  lemma MovedTaken<T>(items: seq<T>, i: nat)
    requires i < |items|
    ensures Taken(items, Moved(items, i), MovedFrom(|items|, i))
    ensures |Moved(items, i)| == |items| && Moved(items, i)[0] == items[i]
  {
  }

  lemma ErasedTaken<T>(items: seq<T>, i: nat)
    requires i < |items|
    ensures Taken(items, Erased(items, i), ErasedFrom(|items|, i))
    ensures i !in ErasedFrom(|items|, i)
  {
  }

  /** A list that takes different nodes of a linked list is linked, if the table keeps exactly the keys
      that are still listed. */
  lemma LinkedTaken<K, V>(items: seq<CacheItem<K, V>>, t: seq<CacheItem<K, V>>, from: seq<nat>, lookup: map<K, int>,
          kept: map<K, int>, unused: int)
    requires Linked(items, lookup, unused) && Taken(items, t, from)
    requires forall k <- lookup :: k in kept || !Listed(t, k)
    requires forall k <- kept :: k in lookup && kept[k] == lookup[k] && Listed(t, k)
    ensures Linked(t, kept, unused)
  {
    forall j | 0 <= j < |t| ensures t[j].key in kept {
      assert Listed(t, t[j].key);
      hide Listed;
    }
    hide Listed;
  }

  lemma LinkedMove<K, V>(items: seq<CacheItem<K, V>>, lookup: map<K, int>, unused: int, i: nat)
    requires Linked(items, lookup, unused) && i < |items|
    ensures Linked(Moved(items, i), lookup, unused)
  {
    forall k | k in lookup ensures Listed(Moved(items, i), k) {
      ListedFrom(items, Moved(items, i), k, i);
      hide Moved;
    }
    hide Listed, Moved;
    MovedTaken(items, i);
    LinkedTaken(items, Moved(items, i), MovedFrom(|items|, i), lookup, lookup, unused);
  }

  lemma LinkedErase<K, V>(items: seq<CacheItem<K, V>>, lookup: map<K, int>, unused: int, i: nat)
    requires Linked(items, lookup, unused) && i < |items|
    ensures Linked(Erased(items, i), lookup - {items[i].key}, unused)
  {
    forall k | k in lookup && k != items[i].key ensures Listed(Erased(items, i), k) {
      ListedFrom(items, Erased(items, i), k, i);
      hide Erased;
    }
    NotListed(items, lookup, unused, i);
    hide Listed, Erased;
    ErasedTaken(items, i);
    LinkedTaken(items, Erased(items, i), ErasedFrom(|items|, i), lookup, lookup - {items[i].key}, unused);
  }

  lemma NotListed<K, V>(items: seq<CacheItem<K, V>>, lookup: map<K, int>, unused: int, i: nat)
    requires Linked(items, lookup, unused) && i < |items|
    ensures !Listed(Erased(items, i), items[i].key)
  {
    var t := Erased(items, i);
    forall j | 0 <= j < |t| ensures t[j].key != items[i].key {
      assert t[j] == items[if j < i then j else j + 1];
    }
  }

  lemma LinkedPush<K, V>(items: seq<CacheItem<K, V>>, lookup: map<K, int>, unused: int, node: CacheItem<K, V>)
    requires Linked(items, lookup, unused) && node.key !in lookup && node.address == unused
    ensures Linked([node] + items, lookup[node.key := node.address], unused + 1)
  {
    var t := [node] + items;
    forall k | k in lookup[node.key := node.address] ensures Listed(t, k) {
      if k == node.key {
        assert t[0].key == k;
      } else {
        assert Listed(items, k);
        var j :| 0 <= j < |items| && items[j].key == k;
        assert t[j + 1].key == k;
      }
    }
    hide Listed;
  }

  /** Storing a value leaves list and table linked and the other entries alone. */
  lemma StoreKeeps<K, V>(items: seq<CacheItem<K, V>>, lookup: map<K, int>, unused: int, i: nat, value: V)
    requires Linked(items, lookup, unused) && i < |items|
    ensures Linked(items[i := items[i].(value := value)], lookup, unused)
  {
    var t := items[i := items[i].(value := value)];
    forall k | k in lookup ensures Listed(t, k) {
      assert Listed(items, k);
      var j :| 0 <= j < |items| && items[j].key == k;
      assert t[j].key == k;
    }
    hide Listed;
  }

  lemma StorePairs<K, V>(items: seq<CacheItem<K, V>>, i: nat, value: V)
    requires i < |items| && NoDup(Pairs(items)) && NoDup(Pairs(items[i := items[i].(value := value)]))
    ensures Without(Pairs(items[i := items[i].(value := value)]), items[i].key) == Without(Pairs(items), items[i].key)
  {
    var s, t := Pairs(items), Pairs(items[i := items[i].(value := value)]);
    WithoutAt(s, i);
    WithoutAt(t, i);
    assert t[..i] == s[..i] && t[i + 1..] == s[i + 1..];
  }

  lemma PairsNoDup<K, V>(items: seq<CacheItem<K, V>>, lookup: map<K, int>, unused: int)
    requires Linked(items, lookup, unused)
    ensures NoDup(Pairs(items))
  {
  }

  lemma PairsMove<K, V>(items: seq<CacheItem<K, V>>, i: nat)
    requires i < |items|
    ensures Pairs(Erased(items, i)) == Pairs(items)[..i] + Pairs(items)[i + 1..]
    ensures Pairs(Moved(items, i)) == [(items[i].key, items[i].value)] + (Pairs(items)[..i] + Pairs(items)[i + 1..])
    ensures |Pairs(items)| == |items| && Pairs(items)[i].0 == items[i].key
  {
  }

  lemma PairsPush<K, V>(items: seq<CacheItem<K, V>>, node: CacheItem<K, V>)
    ensures Pairs([node] + items) == [(node.key, node.value)] + Pairs(items)
  {
  }
}
