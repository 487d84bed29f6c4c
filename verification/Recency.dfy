/** What an LRU cache is: a list of key-value pairs, most recently used first.

    The functions are the specification of LruCache (src/dimserver/storage/buffer/lru_cache.h); the
    lemmas say that over any sequence of operations the list is a map together with the order of last
    use.
 */
module Recency {

  type Contents<K, V> = seq<(K, V)>

  predicate Has<K(==), V>(s: Contents<K, V>, k: K) {
    exists i :: 0 <= i < |s| && s[i].0 == k
  }

  predicate NoDup<K(==), V>(s: Contents<K, V>) {
    forall i, j :: 0 <= i < j < |s| ==> s[i].0 != s[j].0
  }

  /** The list without the entry of key k. */
  function Without<K(==), V>(s: Contents<K, V>, k: K): Contents<K, V> {
    if s == [] then [] else if s[0].0 == k then s[1..] else [s[0]] + Without(s[1..], k)
  }

  function ValueOf<K(==), V>(s: Contents<K, V>, k: K): V
    requires Has(s, k)
  {
    if s[0].0 == k then s[0].1 else
      assert Has(s[1..], k) by { var i :| 0 <= i < |s| && s[i].0 == k; assert s[1..][i - 1].0 == k; }
      ValueOf(s[1..], k)
  }

  /** `get`: a hit moves the entry to the front. */
  function Touch<K(==), V>(s: Contents<K, V>, k: K): Contents<K, V> {
    if Has(s, k) then [(k, ValueOf(s, k))] + Without(s, k) else s
  }

  /** `put`: the entry is at the front afterwards. */
  function Put<K(==), V>(s: Contents<K, V>, k: K, v: V): Contents<K, V> {
    [(k, v)] + Without(s, k)
  }

  /** `pop`: the last entry goes. */
  function Pop<K, V>(s: Contents<K, V>): Contents<K, V> {
    if s == [] then [] else s[..|s| - 1]
  }

  ghost function AsMap<K, V>(s: Contents<K, V>): map<K, V> {
    if s == [] then map[] else AsMap(s[1..])[s[0].0 := s[0].1]
  }

  // ---------- The parts ----------

  lemma {:induction false} WithoutAt<K, V>(s: Contents<K, V>, i: nat)
    requires i < |s| && NoDup(s)
    ensures Without(s, s[i].0) == s[..i] + s[i + 1..]
    decreases i
  {
    if i > 0 {
      assert s[1..][i - 1] == s[i] && s[0].0 != s[i].0;
      WithoutAt(s[1..], i - 1);
      assert s[1..][..i - 1] == s[1..i] && s[..i] == [s[0]] + s[1..i];
      assert s[1..][i..] == s[i + 1..];
    }
  }

  lemma HasTail<K, V>(s: Contents<K, V>, k: K)
    ensures Has(s, k) <==> s != [] && (s[0].0 == k || Has(s[1..], k))
  {
    if Has(s, k) && s[0].0 != k {
      var i :| 0 <= i < |s| && s[i].0 == k;
      assert s[1..][i - 1].0 == k;
    }
    if s != [] && Has(s[1..], k) {
      var i :| 0 <= i < |s[1..]| && s[1..][i].0 == k;
      assert s[i + 1].0 == k;
    }
  }

  lemma {:induction false} WithoutMissing<K, V>(s: Contents<K, V>, k: K)
    requires !Has(s, k)
    ensures Without(s, k) == s
  {
    HasTail(s, k);
    if s != [] {
      WithoutMissing(s[1..], k);
    }
  }

  /** Where the i-th remaining entry stood before. */
  function Origin<K(==), V>(s: Contents<K, V>, k: K, i: nat): nat
    requires s != []
  {
    if s[0].0 == k then i + 1 else if i == 0 || |s| == 1 then 0 else 1 + Origin(s[1..], k, i - 1)
  }

  lemma {:induction false} OriginFacts<K, V>(s: Contents<K, V>, k: K, i: nat)
    requires i < |Without(s, k)|
    ensures s != [] && Origin(s, k, i) < |s| && Without(s, k)[i] == s[Origin(s, k, i)]
    decreases |s|
  {
    if s[0].0 != k && i > 0 {
      OriginFacts(s[1..], k, i - 1);
    }
  }

  lemma {:induction false} OriginMonotone<K, V>(s: Contents<K, V>, k: K, i: nat, j: nat)
    requires i < j < |Without(s, k)|
    ensures s != [] && Origin(s, k, i) < Origin(s, k, j)
    decreases |s|
  {
    if s[0].0 != k {
      assert |s| > 1;
      if i > 0 {
        OriginMonotone(s[1..], k, i - 1, j - 1);
      }
    }
  }

  lemma {:induction false} ValueAt<K, V>(s: Contents<K, V>, i: nat)
    requires i < |s| && NoDup(s)
    ensures Has(s, s[i].0) && ValueOf(s, s[i].0) == s[i].1
    decreases i
  {
    if i > 0 {
      assert s[1..][i - 1] == s[i] && s[0].0 != s[i].0;
      ValueAt(s[1..], i - 1);
    }
  }

  /** x stands before y. */
  predicate Precedes<K(==), V>(s: Contents<K, V>, x: K, y: K) {
    exists i, j :: 0 <= i < j < |s| && s[i].0 == x && s[j].0 == y
  }

  /** What is left keeps its order. */
  lemma WithoutOrder<K, V>(s: Contents<K, V>, k: K, i: nat, j: nat)
    requires NoDup(s) && i < j < |Without(s, k)|
    ensures Without(s, k)[i].0 != Without(s, k)[j].0
    ensures Precedes(s, Without(s, k)[i].0, Without(s, k)[j].0)
  {
    OriginFacts(s, k, i);
    OriginFacts(s, k, j);
    OriginMonotone(s, k, i, j);
  }

  lemma {:induction false} WithoutHas<K, V>(s: Contents<K, V>, k: K, x: K)
    requires NoDup(s)
    ensures Has(Without(s, k), x) <==> Has(s, x) && x != k
  {
    HasTail(s, x);
    HasTail(s, k);
    if s != [] {
      if s[0].0 != k {
        WithoutHas(s[1..], k, x);
        HasTail(Without(s, k), x);
        assert Without(s, k)[1..] == Without(s[1..], k);
      } else {
        forall i | 0 <= i < |s[1..]| ensures s[1..][i].0 != k {
          assert s[i + 1].0 != s[0].0;
        }
      }
    }
  }

  lemma WithoutNoDup<K, V>(s: Contents<K, V>, k: K)
    requires NoDup(s)
    ensures NoDup(Without(s, k))
  {
    forall i: nat, j: nat | i < j < |Without(s, k)| ensures Without(s, k)[i].0 != Without(s, k)[j].0 {
      WithoutOrder(s, k, i, j);
    }
  }

  lemma {:induction false} AsMapKeys<K, V>(s: Contents<K, V>, k: K)
    ensures k in AsMap(s) <==> Has(s, k)
  {
    HasTail(s, k);
    if s != [] {
      AsMapKeys(s[1..], k);
    }
  }

  lemma {:induction false} AsMapValue<K, V>(s: Contents<K, V>, k: K)
    requires Has(s, k)
    ensures k in AsMap(s) && AsMap(s)[k] == ValueOf(s, k)
  {
    HasTail(s, k);
    if s[0].0 != k {
      AsMapValue(s[1..], k);
    }
  }

  lemma {:induction false} AsMapWithout<K, V>(s: Contents<K, V>, k: K)
    requires NoDup(s)
    ensures AsMap(Without(s, k)) == AsMap(s) - {k}
  {
    if s != [] {
      var rest := s[1..];
      AsMapWithout(rest, k);
      if s[0].0 == k {
        AsMapKeys(rest, k);
        WithoutHas(s, k, k);
        assert AsMap(s) - {k} == AsMap(rest);
      } else {
        assert Without(s, k)[1..] == Without(rest, k);
      }
    }
  }

  // ---------- Whole runs ----------

  datatype CacheOp<K, V> = GetOp(key: K) | PutOp(key: K, value: V) | RemoveOp(key: K) | PopOp

  function Do<K(==), V>(s: Contents<K, V>, op: CacheOp<K, V>): Contents<K, V> {
    match op
    case GetOp(k) => Touch(s, k)
    case PutOp(k, v) => Put(s, k, v)
    case RemoveOp(k) => Without(s, k)
    case PopOp => Pop(s)
  }

  function Run<K(==), V>(ops: seq<CacheOp<K, V>>): Contents<K, V> {
    if ops == [] then [] else Do(Run(ops[..|ops| - 1]), ops[|ops| - 1])
  }

  /** When key k was last got or put; -1 for never. */
  function LastUse<K(==), V>(ops: seq<CacheOp<K, V>>, k: K): int {
    if ops == [] then -1
    else
      var op := ops[|ops| - 1];
      if (op.GetOp? || op.PutOp?) && op.key == k then |ops| - 1 else LastUse(ops[..|ops| - 1], k)
  }

  ghost predicate SortedByUse<K, V>(s: Contents<K, V>, ops: seq<CacheOp<K, V>>) {
    forall i, j :: 0 <= i < j < |s| ==> LastUse(ops, s[i].0) > LastUse(ops, s[j].0)
  }

  lemma {:induction false} LastUseBound<K, V>(ops: seq<CacheOp<K, V>>, k: K)
    ensures LastUse(ops, k) < |ops|
  {
    if ops != [] {
      LastUseBound(ops[..|ops| - 1], k);
    }
  }

  lemma FrontMoveSorted<K, V>(s: Contents<K, V>, front: seq<CacheOp<K, V>>, op: CacheOp<K, V>, v: V)
    requires NoDup(s) && SortedByUse(s, front) && (op.GetOp? || op.PutOp?)
    ensures var t := [(op.key, v)] + Without(s, op.key);
            NoDup(t) && SortedByUse(t, front + [op])
  {
    var ops := front + [op];
    assert ops[..|ops| - 1] == front;
    var k := op.key;
    var w := Without(s, k);
    var t := [(k, v)] + w;
    forall i: nat | i < |w| ensures w[i].0 != k && LastUse(ops, w[i].0) == LastUse(front, w[i].0) < |front| {
      WithoutHas(s, k, k);
      assert w[i].0 == k ==> Has(w, k);
      LastUseBound(front, w[i].0);
    }
    forall i, j | 0 <= i < j < |t| ensures LastUse(ops, t[i].0) > LastUse(ops, t[j].0) && t[i].0 != t[j].0 {
      if i > 0 {
        WithoutOrder(s, k, i - 1, j - 1);
      }
    }
  }

  lemma RemovalSorted<K, V>(s: Contents<K, V>, front: seq<CacheOp<K, V>>, op: CacheOp<K, V>)
    requires NoDup(s) && SortedByUse(s, front) && (op.RemoveOp? || op.PopOp?)
    ensures NoDup(Do(s, op)) && SortedByUse(Do(s, op), front + [op])
  {
    var ops := front + [op];
    assert ops[..|ops| - 1] == front;
    if op.RemoveOp? {
      WithoutNoDup(s, op.key);
      var w := Without(s, op.key);
      forall i, j | 0 <= i < j < |w| ensures LastUse(ops, w[i].0) > LastUse(ops, w[j].0) {
        WithoutOrder(s, op.key, i, j);
        assert LastUse(front, w[i].0) > LastUse(front, w[j].0);
      }
    }
  }

  lemma MissSorted<K, V>(s: Contents<K, V>, front: seq<CacheOp<K, V>>, k: K)
    requires NoDup(s) && SortedByUse(s, front) && !Has(s, k)
    ensures SortedByUse(s, front + [GetOp(k)])
  {
    var ops := front + [GetOp(k)];
    assert ops[..|ops| - 1] == front;
    forall i: nat | i < |s| ensures LastUse(ops, s[i].0) == LastUse(front, s[i].0) {
      assert s[i].0 == k ==> Has(s, k);
    }
  }

  /** After any sequence of get, put, remove and pop: no key occurs twice, and the list is ordered by the
      time of the last get or put, newest first. */
  lemma {:induction false} RunSorted<K, V>(ops: seq<CacheOp<K, V>>)
    ensures NoDup(Run(ops)) && SortedByUse(Run(ops), ops)
  {
    if ops != [] {
      var front, op := ops[..|ops| - 1], ops[|ops| - 1];
      RunSorted(front);
      var s := Run(front);
      assert front + [op] == ops;
      match op
      case GetOp(k) =>
        if Has(s, k) {
          FrontMoveSorted(s, front, op, ValueOf(s, k));
        } else {
          MissSorted(s, front, k);
        }
      case PutOp(k, v) => FrontMoveSorted(s, front, op, v);
      case RemoveOp(k) => RemovalSorted(s, front, op);
      case PopOp => RemovalSorted(s, front, op);
    }
  }

  lemma TouchKeepsMap<K, V>(s: Contents<K, V>, k: K)
    requires NoDup(s) && Has(s, k)
    ensures AsMap(Touch(s, k)) == AsMap(s)
  {
    AsMapWithout(s, k);
    AsMapValue(s, k);
    var v, w := ValueOf(s, k), Without(s, k);
    assert ([(k, v)] + w)[1..] == w;
    hide Has, NoDup, Without, ValueOf;
    assert AsMap([(k, v)] + w) == AsMap(w)[k := v];
  }

  /** get leaves the map as it is, and answers what is in it. */
  lemma GetKeepsMap<K, V>(s: Contents<K, V>, k: K)
    requires NoDup(s)
    ensures AsMap(Touch(s, k)) == AsMap(s)
    ensures Has(s, k) <==> k in AsMap(s)
    ensures Has(s, k) ==> ValueOf(s, k) == AsMap(s)[k]
  {
    AsMapKeys(s, k);
    if Has(s, k) {
      TouchKeepsMap(s, k);
      AsMapValue(s, k);
    }
    hide Has, AsMap, Without, ValueOf, NoDup;
  }

  lemma PutUpdatesMap<K, V>(s: Contents<K, V>, k: K, v: V)
    requires NoDup(s)
    ensures AsMap(Put(s, k, v)) == AsMap(s)[k := v]
  {
    AsMapWithout(s, k);
    assert Put(s, k, v)[1..] == Without(s, k);
  }

  lemma PopShrinksMap<K, V>(s: Contents<K, V>)
    requires NoDup(s) && s != []
    ensures AsMap(Pop(s)) == AsMap(s) - {s[|s| - 1].0}
  {
    AsMapWithout(s, s[|s| - 1].0);
    WithoutAt(s, |s| - 1);
    assert s[..|s| - 1] + s[|s|..] == Pop(s);
  }

  /** pop removes the key that has gone unused for longest. */
  lemma PopRemovesOldest<K, V>(ops: seq<CacheOp<K, V>>)
    requires Run(ops) != []
    ensures var s := Run(ops);
            var victim := s[|s| - 1].0;
            && AsMap(Do(s, PopOp)) == AsMap(s) - {victim}
            && victim in AsMap(s)
            && forall k <- AsMap(s) :: k != victim ==> LastUse(ops, victim) < LastUse(ops, k)
  {
    var s := Run(ops);
    RunSorted(ops);
    PopShrinksMap(s);
    var victim := s[|s| - 1].0;
    AsMapKeys(s, victim);
    assert Has(s, victim);
    forall k | k in AsMap(s) && k != victim ensures LastUse(ops, victim) < LastUse(ops, k) {
      AsMapKeys(s, k);
      var i :| 0 <= i < |s| && s[i].0 == k;
      assert i < |s| - 1;
    }
  }
}
