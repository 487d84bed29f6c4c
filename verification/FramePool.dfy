/** The frame manager's state as a value, and what each of its calls does to it.

    Cache, pool and pin counts of src/dimserver/storage/buffer/buffer_pool.cpp (lines 31-133) and
    src/dimserver/common/mem/mem_pool.h (lines 256-304), over any type of frames.  `FrameManager` is the
    class that computes these functions.
 */
module FramePool {
  import opened Recency

  datatype FrameId = FrameId(bufferPoolId: int, pageNum: int)

  const INVALID_PAGE_NUM := -1

  /** `cache` is the LRU list; `used` and `frees` are the pool; `pins` holds the pin counts. */
  datatype State<!F(==)> = State(cache: Contents<FrameId, F>, used: set<F>, frees: seq<F>, pins: map<F, nat>)
  {
    function Size(): nat {
      |used| + |frees|
    }
  }

  /** The frames in the cache. */
  ghost function Frames<F>(c: Contents<FrameId, F>): set<F> {
    set i | 0 <= i < |c| :: c[i].1
  }

  /** No key and no frame occurs twice. */
  ghost predicate OneToOne<F>(c: Contents<FrameId, F>) {
    NoDup(c) && forall i, j :: 0 <= i < j < |c| ==> c[i].1 != c[j].1
  }

  /** The free frames are all different, not in use, and unpinned. */
  ghost predicate Spare<F>(used: set<F>, frees: seq<F>, pins: map<F, nat>) {
    && (forall i, j :: 0 <= i < j < |frees| ==> frees[i] != frees[j])
    && (forall f <- frees :: f !in used && f in pins && pins[f] == 0)
    && used <= pins.Keys
  }

  /** The cached frames are exactly the used ones, each under one key. */
  ghost predicate Inv<F>(s: State<F>) {
    OneToOne(s.cache) && Frames(s.cache) == s.used && Spare(s.used, s.frees, s.pins)
  }

  function PinOf<F>(s: State<F>, f: F): nat {
    if f in s.pins then s.pins[f] else 0
  }

  function Pinned<F>(s: State<F>, f: F): State<F> {
    s.(pins := s.pins[f := PinOf(s, f) + 1])
  }

  function Unpinned<F>(s: State<F>, f: F): State<F> {
    s.(pins := s.pins[f := if PinOf(s, f) > 0 then PinOf(s, f) - 1 else 0])
  }

  /** get: a hit is moved to the front and pinned. */
  function Get<F>(s: State<F>, id: FrameId): State<F> {
    if Has(s.cache, id) then Pinned(s.(cache := Touch(s.cache, id)), ValueOf(s.cache, id)) else s
  }

  /** find_list: pins the cached frames of one buffer pool, most recently used first. */
  function PinAll<F>(s: State<F>, fs: seq<F>): State<F>
    decreases |fs|
  {
    if fs == [] then s else PinAll(Pinned(s, fs[0]), fs[1..])
  }

  /** alloc: the first free frame is reset, pinned and put under the key. */
  function Alloc<F>(s: State<F>, id: FrameId): State<F> {
    if s.frees == [] then s
    else
      var f := s.frees[0];
      State(Put(s.cache, id, f), s.used + {f}, s.frees[1..], s.pins[f := 1])
  }

  /** MemPoolSimple::free: the frame is reset even when it is not in use. */
  function PoolFree<F>(s: State<F>, f: F): State<F> {
    var t := s.(pins := s.pins[f := 0]);
    if f in s.used then t.(used := s.used - {f}, frees := s.frees + [f]) else t
  }

  /** free_internal; its ASSERT is compiled out of release builds and has no effect here. */
  function Free<F>(s: State<F>, id: FrameId, f: F): State<F> {
    var t := s.(cache := Touch(s.cache, id));
    var u := Unpinned(t, f);
    PoolFree(u.(cache := Without(u.cache, id)), f)
  }

  /** What the ASSERT of free_internal demands. */
  predicate Asserted<F>(s: State<F>, id: FrameId, f: F) {
    Has(s.cache, id) && ValueOf(s.cache, id) == f && PinOf(s, f) == 1
  }

  // ---------- The cache part ----------

  lemma MoveFront<T>(c: seq<T>, n: nat)
    requires n < |c|
    ensures var t := [c[n]] + (c[..n] + c[n + 1..]);
            |t| == |c| && forall i :: 0 <= i < |t| ==> t[i] == c[if i == 0 then n else if i <= n then i - 1 else i]
  {
  }

  lemma MovedTo<T>(c: seq<T>, n: nat, i: nat)
    requires n < |c| && i < |c|
    ensures var t := [c[n]] + (c[..n] + c[n + 1..]);
            c[i] == t[if i == n then 0 else if i < n then i + 1 else i]
  {
  }

  lemma MoveFrames<F>(c: Contents<FrameId, F>, t: Contents<FrameId, F>, n: nat)
    requires OneToOne(c) && n < |c| && t == [c[n]] + (c[..n] + c[n + 1..])
    ensures OneToOne(t) && Frames(t) == Frames(c)
  {
    forall f | f in Frames(c) ensures f in Frames(t) {
      var i :| 0 <= i < |c| && c[i].1 == f;
      MovedTo(c, n, i);
    }
    MoveFront(c, n);
    forall f | f in Frames(t) ensures f in Frames(c) {
    }
  }

  lemma EraseFrames<F>(c: Contents<FrameId, F>, t: Contents<FrameId, F>, n: nat)
    requires OneToOne(c) && n < |c| && t == c[..n] + c[n + 1..]
    ensures OneToOne(t) && Frames(t) == Frames(c) - {c[n].1}
  {
    forall f | f in Frames(c) && f != c[n].1 ensures f in Frames(t) {
      var i :| 0 <= i < |c| && c[i].1 == f;
      assert t[if i < n then i else i - 1].1 == f;
    }
  }

  lemma TouchFrames<F>(c: Contents<FrameId, F>, id: FrameId)
    requires OneToOne(c)
    ensures OneToOne(Touch(c, id)) && Frames(Touch(c, id)) == Frames(c)
    ensures Has(c, id) ==> ValueOf(c, id) in Frames(c)
  {
    if Has(c, id) {
      var n :| 0 <= n < |c| && c[n].0 == id;
      TouchIs(c, id, n);
      hide Touch, Without, ValueOf;
      MoveFrames(c, Touch(c, id), n);
      assert c[n].1 in Frames(c);
    }
  }

  lemma TouchIs<F>(c: Contents<FrameId, F>, id: FrameId, n: nat)
    requires NoDup(c) && n < |c| && c[n].0 == id
    ensures Touch(c, id) == [c[n]] + (c[..n] + c[n + 1..])
    ensures Without(c, id) == c[..n] + c[n + 1..]
    ensures Has(c, id) && ValueOf(c, id) == c[n].1
  {
    WithoutAt(c, n);
    ValueAt(c, n);
  }

  lemma WithoutFrames<F>(c: Contents<FrameId, F>, id: FrameId)
    requires OneToOne(c) && Has(c, id)
    ensures OneToOne(Without(c, id)) && Frames(Without(c, id)) == Frames(c) - {ValueOf(c, id)}
  {
    var n :| 0 <= n < |c| && c[n].0 == id;
    TouchIs(c, id, n);
    hide Without, ValueOf;
    EraseFrames(c, Without(c, id), n);
  }

  lemma PutFrames<F>(c: Contents<FrameId, F>, id: FrameId, f: F)
    requires OneToOne(c) && f !in Frames(c)
    ensures OneToOne(Put(c, id, f))
    ensures Frames(Put(c, id, f)) == (if Has(c, id) then Frames(c) - {ValueOf(c, id)} else Frames(c)) + {f}
  {
    if Has(c, id) {
      WithoutFrames(c, id);
    } else {
      WithoutMissing(c, id);
    }
    WithoutHas(c, id, id);
    hide Without, ValueOf;
    var w := Without(c, id);
    PushFrames(w, id, f);
  }

  lemma PushFrames<F>(w: Contents<FrameId, F>, id: FrameId, f: F)
    requires OneToOne(w) && !Has(w, id) && f !in Frames(w)
    ensures OneToOne([(id, f)] + w) && Frames([(id, f)] + w) == Frames(w) + {f}
  {
    var t := [(id, f)] + w;
    forall i | 0 <= i < |w| ensures w[i].0 != id && w[i].1 != f {
      assert w[i].1 in Frames(w);
    }
    forall x | x in Frames(w) ensures x in Frames(t) {
      var i :| 0 <= i < |w| && w[i].1 == x;
      assert t[i + 1].1 == x;
    }
    assert t[0].1 == f;
  }

  // ---------- Preservation ----------

  lemma GetKeeps<F>(s: State<F>, id: FrameId)
    requires Inv(s)
    ensures Inv(Get(s, id)) && Get(s, id).Size() == s.Size()
  {
    TouchFrames(s.cache, id);
    hide Touch, ValueOf, OneToOne, Frames;
  }

  lemma PinKeeps<F>(s: State<F>, f: F)
    requires Inv(s) && f in s.used
    ensures Inv(Pinned(s, f)) && Inv(Unpinned(s, f))
  {
    hide OneToOne, Frames;
  }

  lemma {:induction false} PinAllKeeps<F>(s: State<F>, fs: seq<F>)
    requires Inv(s) && forall f <- fs :: f in s.used
    ensures Inv(PinAll(s, fs))
    ensures PinAll(s, fs) == s.(pins := PinAll(s, fs).pins)
    ensures forall f <- s.pins :: f in PinAll(s, fs).pins && PinAll(s, fs).pins[f] == s.pins[f] + multiset(fs)[f]
    decreases |fs|
  {
    if fs != [] {
      PinKeeps(s, fs[0]);
      hide Inv;
      PinAllKeeps(Pinned(s, fs[0]), fs[1..]);
      assert fs == [fs[0]] + fs[1..];
    }
  }

  /** alloc keeps the invariant exactly when it finds no free frame or its key is not in the cache yet;
      under a key that is there it would leave the old frame in use but unreachable. */
  lemma AllocKeepsExactly<F>(s: State<F>, id: FrameId)
    requires Inv(s)
    ensures Inv(Alloc(s, id)) <==> s.frees == [] || !Has(s.cache, id)
    ensures Alloc(s, id).Size() == s.Size()
  {
    if s.frees != [] {
      var f := s.frees[0];
      PutFrames(s.cache, id, f);
      TouchFrames(s.cache, id);
      hide Put, ValueOf, OneToOne, Frames;
      assert f in s.frees && forall g <- s.frees[1..] :: g in s.frees;
    }
  }

  /** The frame alloc hands out is the one that has been free for longest; it is in use, pinned once, and
      cached under its key in front of all others. */
  lemma AllocGives<F>(s: State<F>, id: FrameId)
    requires Inv(s) && s.frees != []
    ensures var f, t := s.frees[0], Alloc(s, id);
            && t.used == s.used + {f} && t.frees == s.frees[1..] && PinOf(t, f) == 1
            && Has(t.cache, id) && ValueOf(t.cache, id) == f && t.cache[0] == (id, f)
            && (forall g :: g != f ==> PinOf(t, g) == PinOf(s, g))
            && (forall x :: x != id ==> (Has(t.cache, x) <==> Has(s.cache, x)))
  {
    var f, t := s.frees[0], Alloc(s, id);
    assert t.cache[0] == (id, f);
    forall x | x != id ensures Has(t.cache, x) <==> Has(s.cache, x) {
      HasTail(t.cache, x);
      WithoutHas(s.cache, id, x);
    }
  }

  lemma PoolFreeSpare<F>(s: State<F>, f: F)
    requires Spare(s.used, s.frees, s.pins)
    ensures var t := PoolFree(s, f); Spare(t.used, t.frees, t.pins) && t.Size() == s.Size()
  {
    if f in s.used {
      assert |s.used - {f}| == |s.used| - 1;
    }
  }

  /** free_internal without its ASSERT keeps the invariant exactly when the key leads to the frame that
      is freed, or leads nowhere and the frame is not in use. */
  lemma FreeKeepsExactly<F>(s: State<F>, id: FrameId, f: F)
    requires Inv(s)
    ensures Inv(Free(s, id, f)) <==>
            if Has(s.cache, id) then ValueOf(s.cache, id) == f else f !in s.used
    ensures Free(s, id, f).Size() == s.Size()
  {
    var c := Touch(s.cache, id);
    TouchFrames(s.cache, id);
    TouchHas(s.cache, id);
    if Has(s.cache, id) {
      WithoutFrames(c, id);
    } else {
      WithoutMissing(c, id);
    }
    hide Touch, Without, ValueOf, OneToOne, Frames;
    PoolFreeSpare(Unpinned(s, f).(cache := Without(c, id)), f);
  }

  lemma TouchHas<F>(c: Contents<FrameId, F>, id: FrameId)
    ensures Has(Touch(c, id), id) <==> Has(c, id)
    ensures Has(c, id) ==> ValueOf(Touch(c, id), id) == ValueOf(c, id)
  {
    if Has(c, id) {
      assert Touch(c, id)[0] == (id, ValueOf(c, id));
    }
  }
}
