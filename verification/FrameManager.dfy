/** Frames, the object pool they come from, and the frame manager:
    src/dimserver/storage/buffer/frame.h, frame.cpp, buffer_pool.cpp (lines 31-133) and
    src/dimserver/common/mem/mem_pool.h. */
module FrameManager {
  import opened Options
  import opened ReturnCode
  import opened Recency
  import opened LruCache
  import opened FramePool
  import opened FramePurge
  import opened FrameSteps

  /** A frame in the pool's memory.  `frameId` is frame_id_, whose page number set_page_num does not
      reach; `pageNum` is page_.header.page_num. */
  datatype Frame = Frame(pinCount: nat, frameId: FrameId, pageNum: int)

  /** A frame after its constructor, reinit or reset. */
  const BLANK := Frame(0, FrameId(-1, INVALID_PAGE_NUM), INVALID_PAGE_NUM)

  /** A pointer to a frame: the frame's place in the pool's memory. */
  type Ptr = int

  /** MemPoolSimple<Frame> with dynamic growth off. */
  class MemPool {
    /** The memory of the pool. */
    var pool: array<Frame>
    var used: set<Ptr>
    var frees: seq<Ptr>
    var size: nat

    ghost predicate Valid()
      reads this
    {
      && (forall f <- used :: 0 <= f < pool.Length)
      && (forall f <- frees :: 0 <= f < pool.Length && f !in used)
      && (forall i, j :: 0 <= i < j < |frees| ==> frees[i] != frees[j])
      && size == pool.Length == |used| + |frees|
    }

    constructor ()
      ensures Valid() && fresh(pool) && pool.Length == 0
    {
      pool := new Frame[0];
      used, frees, size := {}, [], 0;
    }

    /** init(false, poolNum, 1): a pool that has memory keeps it, an empty one gets poolNum frames, all
        free. */
    method Init(poolNum: int) returns (ret: int)
      requires Valid()
      modifies this
      ensures Valid()
      ensures old(pool.Length) > 0 ==> ret == 0 && pool == old(pool) && used == old(used) && frees == old(frees)
      ensures old(pool.Length) == 0 && poolNum <= 0 ==> ret == -1 && pool == old(pool)
      ensures old(pool.Length) == 0 && poolNum > 0 ==> ret == 0 && fresh(pool) && pool.Length == poolNum && used == {}
      ensures old(pool.Length) == 0 && poolNum > 0 ==>
                forall i :: 0 <= i < poolNum ==> pool[i] == Frame(0, FrameId(-1, -1), -1)
    {
      if pool.Length > 0 {
        return 0;
      }
      if poolNum <= 0 {
        return -1;
      }
      assert |used| == 0;
      pool := new Frame[poolNum](_ => BLANK);
      frees := [];
      for n := 0 to poolNum
        invariant used == {} && fresh(pool) && pool.Length == poolNum
        invariant forall i :: 0 <= i < poolNum ==> pool[i] == BLANK
        invariant |frees| == n && forall i :: 0 <= i < n ==> frees[i] == i
      {
        frees := frees + [n];
      }
      size := poolNum;
      ret := 0;
    }

    /** The first free frame, reset; none when there is none. */
    method Alloc() returns (f: Option<Ptr>)
      requires Valid()
      modifies this`used, this`frees, pool
      ensures Valid()
      ensures old(frees) == [] ==> f == None && used == old(used) && frees == []
      ensures old(frees) != [] ==> f == Some(old(frees)[0]) && used == old(used) + {f.value} && frees == old(frees)[1..]
      ensures f.Some? ==> 0 <= f.value < pool.Length
      ensures pool[..] == if f.Some? then old(pool[..])[f.value := BLANK] else old(pool[..])
    {
      if frees == [] {
        return None;
      }
      var item := frees[0];
      assert item in frees && forall i <- frees[1..] :: i in frees;
      frees := frees[1..];
      used := used + {item};
      pool[item] := BLANK;
      f := Some(item);
    }

    /** Resets the frame, and takes it back if it was in use. */
    method Free(f: Ptr)
      requires Valid() && 0 <= f < pool.Length
      modifies this`used, this`frees, pool
      ensures Valid()
      ensures pool[..] == old(pool[..])[f := BLANK]
      ensures used == old(used) - {f} && frees == old(frees) + if f in old(used) then [f] else []
    {
      pool[f] := BLANK;
      if f !in used {
        return;
      }
      used := used - {f};
      frees := frees + [f];
    }

    method Pin(f: Ptr)
      requires 0 <= f < pool.Length
      modifies pool
      ensures pool[..] == old(pool[..])[f := old(pool[f]).(pinCount := old(pool[f].pinCount) + 1)]
    {
      pool[f] := pool[f].(pinCount := pool[f].pinCount + 1);
    }

    method Unpin(f: Ptr)
      requires 0 <= f < pool.Length
      modifies pool
      ensures var n := old(pool[f].pinCount);
              pool[..] == old(pool[..])[f := old(pool[f]).(pinCount := if n > 0 then n - 1 else 0)]
    {
      if pool[f].pinCount > 0 {
        pool[f] := pool[f].(pinCount := pool[f].pinCount - 1);
      }
    }

    method SetBufferPoolId(f: Ptr, id: int)
      requires 0 <= f < pool.Length
      modifies pool
      ensures pool[..] == old(pool[..])[f := old(pool[f]).(frameId := old(pool[f].frameId).(bufferPoolId := id))]
    {
      pool[f] := pool[f].(frameId := pool[f].frameId.(bufferPoolId := id));
    }

    method SetPageNum(f: Ptr, n: int)
      requires 0 <= f < pool.Length
      modifies pool
      ensures pool[..] == old(pool[..])[f := old(pool[f]).(pageNum := n)]
    {
      pool[f] := pool[f].(pageNum := n);
    }
  }

  /** The pin counts of the frames in the pool. */
  ghost function PinsOf(pool: seq<Frame>): map<Ptr, nat> {
    if pool == [] then map[] else PinsOf(pool[..|pool| - 1])[|pool| - 1 := pool[|pool| - 1].pinCount]
  }

  lemma {:induction false} PinsAre(pool: seq<Frame>)
    ensures forall f :: f in PinsOf(pool) <==> 0 <= f < |pool|
    ensures forall f :: 0 <= f < |pool| ==> PinsOf(pool)[f] == pool[f].pinCount
  {
    if pool != [] {
      PinsAre(pool[..|pool| - 1]);
    }
  }

  lemma PinsStore(pool: seq<Frame>, f: Ptr, frame: Frame)
    requires 0 <= f < |pool|
    ensures PinsOf(pool[f := frame]) == PinsOf(pool)[f := frame.pinCount]
  {
    PinsAre(pool);
    PinsAre(pool[f := frame]);
    hide PinsOf;
    var a, b := PinsOf(pool[f := frame]), PinsOf(pool)[f := frame.pinCount];
    assert forall g :: g in a <==> g in b;
    assert forall g <- a :: a[g] == b[g];
  }

  lemma PinsPin(pool: seq<Frame>, f: Ptr)
    requires 0 <= f < |pool|
    ensures f in PinsOf(pool) && PinsOf(pool)[f] == pool[f].pinCount
    ensures PinsOf(pool[f := pool[f].(pinCount := pool[f].pinCount + 1)]) == PinsOf(pool)[f := PinsOf(pool)[f] + 1]
  {
    PinsAre(pool);
    PinsStore(pool, f, pool[f].(pinCount := pool[f].pinCount + 1));
  }

  /** The id stored in a cached frame is its key without the page number. */
  ghost predicate PoolsRight(pool: seq<Frame>, c: Contents<FrameId, Ptr>) {
    forall e <- c :: 0 <= e.1 < |pool| && pool[e.1].frameId == StoredId(e.0)
  }

  /** Cache, pool and pin counts as a value. */
  ghost function Snap(cache: Contents<FrameId, Ptr>, used: set<Ptr>, frees: seq<Ptr>, pool: seq<Frame>): State<Ptr> {
    FramePool.State(cache, used, frees, PinsOf(pool))
  }

  lemma InvOneToOne(s: State<Ptr>)
    requires Inv(s)
    ensures OneToOne(s.cache)
  {
  }

  lemma SnapCache(cache: Contents<FrameId, Ptr>, used: set<Ptr>, frees: seq<Ptr>, pool: seq<Frame>)
    ensures Snap(cache, used, frees, pool).cache == cache
  {
  }

  /** A hit pins the frame in the pool's memory. */
  lemma GetSnap(cache: Contents<FrameId, Ptr>, used: set<Ptr>, frees: seq<Ptr>, pool: seq<Frame>, id: FrameId)
    requires OneToOne(cache) && PoolsRight(pool, cache)
    ensures PoolsRight(pool, Touch(cache, id))
    ensures !Has(cache, id) ==> Get(Snap(cache, used, frees, pool), id) == Snap(Touch(cache, id), used, frees, pool)
    ensures Has(cache, id) ==> 0 <= ValueOf(cache, id) < |pool|
    ensures Has(cache, id) ==>
              Get(Snap(cache, used, frees, pool), id)
                  == Snap(Touch(cache, id), used, frees, Pinning(pool, ValueOf(cache, id)))
    ensures Has(cache, id) ==> PoolsRight(Pinning(pool, ValueOf(cache, id)), Touch(cache, id))
  {
    TouchPools(pool, cache, id);
    if Has(cache, id) {
      PinSnap(Touch(cache, id), used, frees, pool, ValueOf(cache, id));
    }
    hide Touch, ValueOf, PoolsRight, PinsOf, Pinning;
  }

  lemma TouchPools(pool: seq<Frame>, cache: Contents<FrameId, Ptr>, id: FrameId)
    requires OneToOne(cache) && PoolsRight(pool, cache)
    ensures PoolsRight(pool, Touch(cache, id))
    ensures Has(cache, id) ==> 0 <= ValueOf(cache, id) < |pool|
  {
    TouchEntries(cache, id);
    if Has(cache, id) {
      var i :| 0 <= i < |cache| && cache[i].0 == id;
      ValueAt(cache, i);
      assert cache[i] in cache;
      hide Touch, ValueOf;
    }
  }

  lemma PinSnap(cache: Contents<FrameId, Ptr>, used: set<Ptr>, frees: seq<Ptr>, pool: seq<Frame>, f: Ptr)
    requires 0 <= f < |pool| && PoolsRight(pool, cache)
    ensures Pinned(Snap(cache, used, frees, pool), f) == Snap(cache, used, frees, Pinning(pool, f))
    ensures PoolsRight(Pinning(pool, f), cache)
    ensures PinOf(Snap(cache, used, frees, pool), f) == pool[f].pinCount
  {
    PinsPin(pool, f);
    hide PinsOf;
  }

  /** The first free frame is pinned and gets its ids in the pool's memory. */
  lemma AllocSnap(cache: Contents<FrameId, Ptr>, used: set<Ptr>, frees: seq<Ptr>, pool: seq<Frame>, id: FrameId)
    requires Inv(Snap(cache, used, frees, pool)) && PoolsRight(pool, cache)
    ensures frees == [] ==> Alloc(Snap(cache, used, frees, pool), id) == Snap(cache, used, frees, pool)
    ensures frees != [] ==> 0 <= frees[0] < |pool|
    ensures frees != [] ==>
              Alloc(Snap(cache, used, frees, pool), id)
              == Snap(Put(cache, id, frees[0]), used + {frees[0]}, frees[1..], Placing(pool, frees[0], id))
              && PoolsRight(Placing(pool, frees[0], id), Put(cache, id, frees[0]))
  {
    if frees != [] {
      PinsAre(pool);
      EntriesUsed(Snap(cache, used, frees, pool));
      WithoutEntries(cache, id);
      assert frees[0] in frees;
      hide PinsOf, Inv, Without;
      PinsStore(pool, frees[0], Frame(1, StoredId(id), id.pageNum));
    }
  }

  /** What alloc writes into the frame. */
  function Placing(pool: seq<Frame>, f: Ptr, id: FrameId): seq<Frame>
    requires 0 <= f < |pool|
  {
    pool[f := Frame(1, StoredId(id), id.pageNum)]
  }

  /** Resetting the frame in the pool's memory is the free of the value model, whatever key and frame are
      given. */
  lemma FreeSnap(cache: Contents<FrameId, Ptr>, used: set<Ptr>, frees: seq<Ptr>, pool: seq<Frame>, id: FrameId, f: Ptr)
    requires 0 <= f < |pool|
    ensures Free(Snap(cache, used, frees, pool), id, f)
            == Snap(Without(Touch(cache, id), id), used - {f},
                frees + (if f in used then [f] else []), pool[f := BLANK])
  {
    PinsStore(pool, f, BLANK);
    FreeParts(Snap(cache, used, frees, pool), id, f);
    hide Touch, Without, PinsOf, Free;
  }

  /** As its ASSERT demands, a free leaves the other cached frames their ids. */
  lemma FreePools(cache: Contents<FrameId, Ptr>, used: set<Ptr>, frees: seq<Ptr>, pool: seq<Frame>, id: FrameId, f: Ptr)
    requires Inv(Snap(cache, used, frees, pool)) && PoolsRight(pool, cache)
    requires Asserted(Snap(cache, used, frees, pool), id, f)
    ensures 0 <= f < |pool|
    ensures PoolsRight(pool[f := BLANK], Without(Touch(cache, id), id))
  {
    var s := Snap(cache, used, frees, pool);
    PinsAre(pool);
    TouchFrames(cache, id);
    FreeEntries(s, id, f);
    FreeParts(s, id, f);
    hide Inv, Touch, Without, PinsOf;
  }

  function Pinning(pool: seq<Frame>, f: Ptr): seq<Frame>
    requires 0 <= f < |pool|
  {
    pool[f := pool[f].(pinCount := pool[f].pinCount + 1)]
  }

  function Unpinning(pool: seq<Frame>, f: Ptr): seq<Frame>
    requires 0 <= f < |pool|
  {
    pool[f := pool[f].(pinCount := if pool[f].pinCount > 0 then pool[f].pinCount - 1 else 0)]
  }

  /** Which of the first n calls of the purger succeed. */
  function Verdicts(answers: nat -> RC, n: nat): seq<bool> {
    seq(n, k requires 0 <= k => answers(k) == SUCCESS)
  }

  /** What the purger's answers mean for the frames offered to it, the k-th answer being for the k-th of
      them: exactly those whose purger does not succeed stay cached, or, with the ids the frames are
      freed under as written, stay in use. */
  lemma PurgeAnswered(s: State<Ptr>, count: int, answers: nat -> RC)
    requires Inv(s)
    ensures var cands := Candidates(s.cache, s.pins, Wanted(count));
            var n := |set i: nat | i < |s.cache| && PinOf(s, s.cache[i].1) == 0|;
            var most := if count < 1 then 1 else count;
            && |cands| == (if most < n then most else n)
            && |Gone(cands, Verdicts(answers, |cands|))| == |set k: nat | k < |cands| && answers(k) == SUCCESS|
            && (forall k: nat :: k < |cands| ==>
                  && (Has(Purge(s, count, Verdicts(answers, |cands|)).cache, cands[k].0) <==> answers(k) != SUCCESS)
                  && (cands[k].1 in PurgeStored(s, count, Verdicts(answers, |cands|)).used <==> answers(k) != SUCCESS))
  {
    hide Candidates, Gone, Purge, PurgeStored, Inv, Has, PinOf;
    var cands := Candidates(s.cache, s.pins, Wanted(count));
    var verdicts := Verdicts(answers, |cands|);
    OfferedCount(s, count);
    GoneCount(cands, verdicts);
    assert (set k: nat | k < |cands| && answers(k) == SUCCESS) == set k: nat | k < |cands| && verdicts[k];
    OfferedOnce(s, Wanted(count));
    forall k: nat | k < |cands|
      ensures Has(Purge(s, count, verdicts).cache, cands[k].0) <==> answers(k) != SUCCESS
      ensures cands[k].1 in PurgeStored(s, count, verdicts).used <==> answers(k) != SUCCESS
    {
      PurgedAre(s, count, verdicts, cands[k].0);
      PurgeStoredUsed(s, count, verdicts, cands[k].1);
    }
  }

  class FrameManager {
    const frames: LruCache<FrameId, Ptr>
    const allocator: MemPool

    /** What cache and pool hold.  That these agree with each other is `Inv(State())`. */
    ghost function State(): State<Ptr>
      reads frames, allocator, allocator.pool
    {
      Snap(frames.Contents(), allocator.used, allocator.frees, allocator.pool[..])
    }

    ghost predicate Sound()
      reads frames, allocator
    {
      frames.Valid() && allocator.Valid()
    }

    /** Cache and pool are sound, and a cached frame knows the buffer pool in its key. */
    ghost predicate Valid()
      reads frames, allocator, allocator.pool
    {
      Sound() && PoolsRight(allocator.pool[..], frames.Contents())
    }

    constructor ()
      ensures Valid() && Inv(State()) && State() == Snap([], {}, [], [])
      ensures fresh(frames) && fresh(allocator) && fresh(allocator.pool)
    {
      frames := new LruCache<FrameId, Ptr>();
      allocator := new MemPool();
      new;
      NothingFree(allocator.used, allocator.frees);
      assert Frames(State().cache) == {};
    }

    /** Gives a manager without memory its frames; one that has its frames already keeps them. */
    method Init(poolNum: int) returns (rc: RC)
      requires Valid() && Inv(State())
      modifies allocator
      ensures Valid() && Inv(State()) && State().cache == old(State()).cache
      ensures old(allocator.pool.Length) == 0 && poolNum <= 0 ==> rc == NO_MEM_POOL && State() == old(State())
      ensures old(allocator.pool.Length) == 0 && poolNum > 0 ==> rc == SUCCESS && |State().frees| == poolNum
      ensures old(allocator.pool.Length) > 0 ==> rc == SUCCESS && State() == old(State())
    {
      NoMemory();
      ghost var empty := allocator.pool.Length == 0;
      hide PinsOf, Inv;
      var ret := allocator.Init(poolNum);
      if ret != 0 {
        return NO_MEM_POOL;
      }
      if empty {
        AllFree(allocator.frees, allocator.pool[..]);
      }
      rc := SUCCESS;
    }

    /** Without memory no frame is in use, free or cached. */
    lemma NoMemory()
      requires Valid() && Inv(State())
      ensures allocator.pool.Length == 0 ==> allocator.used == {} && frames.Contents() == []
    {
      if allocator.pool.Length == 0 && frames.Contents() != [] {
        assert frames.Contents()[0] in frames.Contents();
      }
      NothingFree(allocator.used, []);
    }

    /** A cached frame is pinned and becomes the most recently used. */
    method GetFrame(bufferPoolId: int, pageNum: int) returns (frame: Option<Ptr>)
      requires Valid() && Inv(State())
      modifies frames`items, allocator.pool
      ensures Valid() && State() == Get(old(State()), FrameId(bufferPoolId, pageNum))
      ensures frame == if Has(old(State()).cache, FrameId(bufferPoolId, pageNum))
                       then Some(ValueOf(old(State()).cache, FrameId(bufferPoolId, pageNum))) else None
    {
      hide Touch, Inv, OneToOne, Has, ValueOf, Linked, Pairs, Get, Snap, PoolsRight;
      var id := FrameId(bufferPoolId, pageNum);
      SnapCache(frames.Contents(), allocator.used, allocator.frees, allocator.pool[..]);
      InvOneToOne(State());
      GetSnap(frames.Contents(), allocator.used, allocator.frees, allocator.pool[..], id);
      frame := frames.Get(id);
      if frame.Some? {
        allocator.Pin(frame.value);
      }
    }

    method PinFrame(f: Ptr)
      requires Valid() && 0 <= f < allocator.pool.Length
      modifies allocator.pool
      ensures Valid() && State() == Pinned(old(State()), f)
    {
      PinSnap(frames.Contents(), allocator.used, allocator.frees, allocator.pool[..], f);
      hide Snap, PoolsRight, Linked, Pinned;
      allocator.Pin(f);
    }

    /** Pins and lists the cached frames of one buffer pool, most recently used first. */
    method FindFrames(bufferPoolId: int) returns (list: seq<Ptr>)
      requires Valid() && Inv(State())
      modifies allocator.pool
      ensures Valid() && State() == FindList(old(State()), bufferPoolId)
      ensures list == InPool(old(State()).cache, bufferPoolId)
    {
      list := [];
      ghost var s := State();
      PinAllNone(s);
      assert s.cache[..0] == [] && InPool(s.cache[..0], bufferPoolId) == [];
      assert |s.cache| == |frames.items|;
      hide Inv, Linked, PinAll, InPool, Snap, PoolsRight, Pinned;
      for n := 0 to |frames.items|
        invariant PoolsRight(allocator.pool[..], frames.Contents()) && allocator.Valid()
        invariant State() == PinAll(s, list)
        invariant list == InPool(s.cache[..n], bufferPoolId)
      {
        var item := frames.items[n];
        InPoolNext(frames.Contents(), bufferPoolId, n);
        EntryPool(allocator.pool[..], frames.Contents(), n);
        if allocator.pool[item.value].frameId.bufferPoolId == bufferPoolId {
          PinAllNext(s, list, item.value);
          PinFrame(item.value);
          list := list + [item.value];
        }
      }
      assert s.cache[..|frames.items|] == s.cache;
    }

    /** The first free frame, pinned and told where it belongs. */
    method TakeFrame(bufferPoolId: int, pageNum: int) returns (frame: Option<Ptr>)
      requires allocator.Valid()
      modifies allocator`used, allocator`frees, allocator.pool
      ensures allocator.Valid()
      ensures old(allocator.frees) == [] ==>
                frame == None && allocator.used == old(allocator.used) && allocator.frees == []
      ensures old(allocator.frees) == [] ==> allocator.pool[..] == old(allocator.pool[..])
      ensures old(allocator.frees) != [] ==>
                frame == Some(old(allocator.frees)[0]) && 0 <= frame.value < allocator.pool.Length
      ensures frame.Some? ==> allocator.used == old(allocator.used) + {frame.value}
      ensures frame.Some? ==> allocator.frees == old(allocator.frees)[1..]
      ensures frame.Some? ==>
                allocator.pool[..] == Placing(old(allocator.pool[..]), frame.value, FrameId(bufferPoolId, pageNum))
    {
      frame := allocator.Alloc();
      if frame.Some? {
        allocator.SetBufferPoolId(frame.value, bufferPoolId);
        allocator.SetPageNum(frame.value, pageNum);
        allocator.Pin(frame.value);
      }
    }

    /** Takes the first free frame, pins it, and puts it under its key; none when no frame is free. */
    method AllocFrame(bufferPoolId: int, pageNum: int) returns (frame: Option<Ptr>)
      requires Valid() && Inv(State())
      modifies frames, allocator`used, allocator`frees, allocator.pool
      ensures Valid() && State() == Alloc(old(State()), FrameId(bufferPoolId, pageNum))
      ensures frame == if old(allocator.frees) == [] then None else Some(old(allocator.frees)[0])
      ensures frame.Some? ==> 0 <= frame.value < allocator.pool.Length
      ensures frame.Some? ==> allocator.pool[frame.value] == Frame(1, FrameId(bufferPoolId, -1), pageNum)
    {
      var id := FrameId(bufferPoolId, pageNum);
      AllocSnap(frames.Contents(), allocator.used, allocator.frees, allocator.pool[..], id);
      hide Inv, Without, Linked, Pairs, Alloc, Put, Snap, PoolsRight, StoredId;
      frame := TakeFrame(bufferPoolId, pageNum);
      if frame.Some? {
        frames.PutItem(id, frame.value);
        assert allocator.pool[..][frame.value] == Frame(1, StoredId(id), pageNum);
        assert StoredId(id) == FrameId(bufferPoolId, -1) by {
          StoredIdIs(id);
        }
      }
    }

    /** The cache's part of free_internal: looks the key up, which moves its entry to the front, drops one
        pin, and removes the key. */
    method DropFrame(id: FrameId, frame: Ptr)
      requires frames.Valid() && 0 <= frame < allocator.pool.Length
      modifies frames, allocator.pool
      ensures frames.Valid() && frames.Contents() == Without(Touch(old(frames.Contents()), id), id)
      ensures allocator.pool[..][frame := BLANK] == old(allocator.pool[..])[frame := BLANK]
      ensures allocator.pool[frame].pageNum == -1 && allocator.pool[frame].frameId == old(allocator.pool[frame].frameId)
      ensures allocator.pool[frame].pinCount ==
              if old(allocator.pool[frame].pinCount) > 0 then old(allocator.pool[frame].pinCount) - 1 else 0
    {
      hide Touch, Without, Linked, Pairs;
      var out := frames.Get(id);
      allocator.SetPageNum(frame, -1);
      allocator.Unpin(frame);
      frames.Remove(id);
    }

    /** free_internal, as release builds carry it out. */
    method ReleaseFrame(id: FrameId, frame: Ptr)
      requires Sound() && 0 <= frame < allocator.pool.Length
      modifies frames, allocator`used, allocator`frees, allocator.pool
      ensures Sound() && State() == Free(old(State()), id, frame)
      ensures frames.Contents() == Without(Touch(old(frames.Contents()), id), id)
      ensures allocator.pool[..] == old(allocator.pool[..])[frame := BLANK]
    {
      FreeSnap(frames.Contents(), allocator.used, allocator.frees, allocator.pool[..], id, frame);
      hide Touch, Without, Linked, Pairs, Free, Snap;
      DropFrame(id, frame);
      allocator.Free(frame);
    }

    /** free_internal.  Called as its ASSERT demands it leaves the frame ids right. */
    method FreeFrame(id: FrameId, frame: Ptr) returns (rc: RC)
      requires Sound() && 0 <= frame < allocator.pool.Length
      modifies frames, allocator`used, allocator`frees, allocator.pool
      ensures Sound() && rc == SUCCESS && State() == Free(old(State()), id, frame)
      ensures allocator.pool[..] == old(allocator.pool[..])[frame := BLANK]
      ensures old(Valid() && Inv(State()) && Asserted(State(), id, frame)) ==> Valid()
    {
      if Valid() && Inv(State()) && Asserted(State(), id, frame) {
        FreePools(frames.Contents(), allocator.used, allocator.frees, allocator.pool[..], id, frame);
      }
      hide Inv, Touch, Without, Linked, Pairs, Free, Snap, PoolsRight, Asserted;
      ReleaseFrame(id, frame);
      rc := SUCCESS;
    }

    /** purge_finder on one frame: a frame that can be purged is pinned. */
    method PinIfPurgeable(f: Ptr) returns (pinned: bool)
      requires Valid() && 0 <= f < allocator.pool.Length
      modifies allocator.pool
      ensures Valid() && pinned == (PinOf(old(State()), f) == 0)
      ensures State() == if pinned then Pinned(old(State()), f) else old(State())
    {
      PinSnap(frames.Contents(), allocator.used, allocator.frees, allocator.pool[..], f);
      hide Snap, PoolsRight, Linked, Pinned, PinOf;
      pinned := allocator.pool[f].pinCount == 0;
      if pinned {
        PinFrame(f);
      }
    }

    /** purge_frames' walk from the least recently used end: pins and collects unpinned frames, each with
        the key it is cached under, until there are `wanted`. */
    method FindPurgeable(wanted: nat) returns (found: Contents<FrameId, Ptr>)
      requires Valid() && Inv(State()) && wanted > 0
      modifies allocator.pool
      ensures Valid() && State() == PinAll(old(State()), FramesOf(found))
      ensures found == Candidates(old(State()).cache, old(State()).pins, wanted)
    {
      found := [];
      ghost var s := State();
      WalkStarts(s, wanted);
      var n := |frames.items|;
      assert |s.cache| == n;
      hide Inv, Linked, PinAll, FramesOf, Candidates, Snap, PoolsRight, Pinned, Walked, PinOf;
      while n > 0
        invariant 0 <= n <= |s.cache| && |found| < wanted
        invariant PoolsRight(allocator.pool[..], frames.Contents()) && allocator.Valid()
        invariant State() == PinAll(s, FramesOf(found))
        invariant Walked(s, wanted, n, found)
      {
        n := n - 1;
        var item := frames.items[n];
        EntryPool(allocator.pool[..], frames.Contents(), n);
        WalkOne(s, wanted, n, found);
        PinAllNext(s, FramesOf(found), item.value);
        var pinned := PinIfPurgeable(item.value);
        if pinned {
          found := found + [(item.key, item.value)];
          if |found| >= wanted {
            WalkFull(s, wanted, n, found);
            return;
          }
        }
      }
      WalkEnds(s, wanted, found);
    }

    method UnpinFrame(f: Ptr)
      requires Sound() && 0 <= f < allocator.pool.Length
      modifies allocator.pool
      ensures Sound() && State() == Unpinned(old(State()), f)
      ensures allocator.pool[..] == Unpinning(old(allocator.pool[..]), f)
      ensures old(Valid()) ==> Valid()
    {
      UnpinSnap(frames.Contents(), allocator.used, allocator.frees, allocator.pool[..], f);
      hide Snap, PoolsRight, Linked, Unpinned;
      allocator.Unpin(f);
    }

    /** The second half of purge_frames for one candidate: freed if the purger succeeded on it, unpinned
        again if not. */
    method Settle(id: FrameId, f: Ptr, success: bool)
      requires Valid() && Inv(State()) && Asserted(State(), id, f)
      modifies frames, allocator`used, allocator`frees, allocator.pool
      ensures Valid() && State() == if success then Free(old(State()), id, f) else Unpinned(old(State()), f)
    {
      FreePools(frames.Contents(), allocator.used, allocator.frees, allocator.pool[..], id, f);
      hide Snap, PoolsRight, Linked, Inv, Unpinned, Free, Asserted;
      if success {
        var _ := FreeFrame(id, f);
      } else {
        UnpinFrame(f);
      }
    }

    /** purge_frames, with a purger that answers its k-th call with `answers(k)`; a frame is freed under
        the key it is cached under. */
    method PurgeFrames(count: int, answers: nat -> RC)
      returns (freed: nat, ghost offered: Contents<FrameId, Ptr>)
      requires Valid() && Inv(State())
      modifies frames, allocator`used, allocator`frees, allocator.pool
      ensures Valid() && offered == Candidates(old(State()).cache, old(State()).pins, Wanted(count))
      ensures State() == Purge(old(State()), count, Verdicts(answers, |offered|))
      ensures forall k: nat :: k < |offered| ==> (Has(State().cache, offered[k].0) <==> answers(k) != SUCCESS)
      ensures freed == |set k: nat | k < |offered| && answers(k) == SUCCESS|
    {
      hide Inv, Ready, Candidates, Sweep, Gone, PinAll, FramesOf, Snap, PoolsRight, Linked, Swept, Has, PurgeStored;
      CandidatesReady(State(), Wanted(count));
      PurgeAnswered(State(), count, answers);
      var found := FindPurgeable(if count <= 0 then 1 else count);
      offered := found;
      ghost var t, verdicts := State(), Verdicts(answers, |found|);
      freed := 0;
      SweptStart(t, found, verdicts);
      for k := 0 to |found|
        invariant Valid() && Swept(State(), t, found, verdicts, k, freed)
      {
        SweptNext(State(), t, found, verdicts, k, freed);
        Settle(found[k].0, found[k].1, answers(k) == SUCCESS);
        if answers(k) == SUCCESS {
          freed := freed + 1;
        }
      }
      SweptEnd(State(), t, found, verdicts, freed);
    }

    /** The same for one candidate, under the id stored in the frame. */
    method SettleAsWritten(f: Ptr, success: bool)
      requires Sound() && 0 <= f < allocator.pool.Length
      modifies frames, allocator`used, allocator`frees, allocator.pool
      ensures Sound()
      ensures State() ==
              if success then Free(old(State()), old(allocator.pool[f].frameId), f) else Unpinned(old(State()), f)
      ensures allocator.pool[..] ==
              if success then old(allocator.pool[..])[f := BLANK] else Unpinning(old(allocator.pool[..]), f)
    {
      hide Snap, PoolsRight, Linked, Inv, Unpinned, Free, Asserted, Unpinning;
      if success {
        ReleaseFrame(allocator.pool[f].frameId, f);
      } else {
        UnpinFrame(f);
      }
    }

    /** purge_frames as written: a frame is freed under the id stored in it. */
    method PurgeFramesAsWritten(count: int, answers: nat -> RC)
      returns (freed: nat, ghost offered: Contents<FrameId, Ptr>)
      requires Valid() && Inv(State())
      modifies frames, allocator`used, allocator`frees, allocator.pool
      ensures Sound() && offered == Candidates(old(State()).cache, old(State()).pins, Wanted(count))
      ensures State() == PurgeStored(old(State()), count, Verdicts(answers, |offered|))
      ensures forall k: nat :: k < |offered| ==> (offered[k].1 in State().used <==> answers(k) != SUCCESS)
      ensures freed == |set k: nat | k < |offered| && answers(k) == SUCCESS|
    {
      hide Inv, Ready, Candidates, SweepStored, Gone, PinAll, FramesOf, Snap, PoolsRight, Linked, Stored,
           SweptStored, Free, Unpinned, Unpinning, StoredId, Has, Purge;
      ghost var s := State();
      PurgeAnswered(s, count, answers);
      SnapCache(frames.Contents(), allocator.used, allocator.frees, allocator.pool[..]);
      var found := FindPurgeable(if count <= 0 then 1 else count);
      offered := found;
      FoundStored(allocator.pool[..], s, Wanted(count), found);
      ghost var t, verdicts := State(), Verdicts(answers, |found|);
      freed := 0;
      SweptStoredStart(t, found, verdicts);
      for k := 0 to |found|
        invariant Sound() && SweptStored(State(), t, found, verdicts, k, freed)
        invariant Stored(allocator.pool[..], found, k)
      {
        StoredNext(allocator.pool[..], found, k);
        SweptStoredNext(State(), t, found, verdicts, k, freed);
        SettleAsWritten(found[k].1, answers(k) == SUCCESS);
        if answers(k) == SUCCESS {
          freed := freed + 1;
        }
      }
      SweptStoredEnd(State(), t, found, verdicts, freed);
    }
  }

  /** Unpinning a candidate that was not purged. */
  lemma UnpinSnap(cache: Contents<FrameId, Ptr>, used: set<Ptr>, frees: seq<Ptr>, pool: seq<Frame>, f: Ptr)
    requires 0 <= f < |pool|
    ensures Unpinned(Snap(cache, used, frees, pool), f) == Snap(cache, used, frees, Unpinning(pool, f))
    ensures PoolsRight(pool, cache) ==> PoolsRight(Unpinning(pool, f), cache)
  {
    PinsAre(pool);
    PinsStore(pool, f, Unpinning(pool, f)[f]);
    hide PinsOf;
  }

  /** The frames from place k on are different and carry their stored ids. */
  ghost predicate Stored(pool: seq<Frame>, found: Contents<FrameId, Ptr>, k: nat) {
    && (forall i :: k <= i < |found| ==> 0 <= found[i].1 < |pool| && pool[found[i].1].frameId == StoredId(found[i].0))
    && (forall i, j :: 0 <= i < j < |found| ==> found[i].1 != found[j].1)
  }

  lemma FoundStored(pool: seq<Frame>, s: State<Ptr>, wanted: nat, found: Contents<FrameId, Ptr>)
    requires Inv(s) && PoolsRight(pool, s.cache) && found == Candidates(s.cache, s.pins, wanted)
    ensures Stored(pool, found, 0)
  {
    CandidatesReady(s, wanted);
    forall i: nat | i < |found| ensures 0 <= found[i].1 < |pool| && pool[found[i].1].frameId == StoredId(found[i].0) {
      CandidatePlace(s.cache, s.pins, wanted, i);
      assert found[i] in s.cache;
    }
    hide Inv, PoolsRight, Candidates, Asserted;
  }

  lemma StoredNext(pool: seq<Frame>, found: Contents<FrameId, Ptr>, k: nat)
    requires k < |found| && Stored(pool, found, k)
    ensures 0 <= found[k].1 < |pool| && pool[found[k].1].frameId == StoredId(found[k].0)
    ensures Stored(pool[found[k].1 := BLANK], found, k + 1) && Stored(Unpinning(pool, found[k].1), found, k + 1)
  {
  }

  lemma AllFree(frees: seq<Ptr>, pool: seq<Frame>)
    requires forall i, j :: 0 <= i < j < |frees| ==> frees[i] != frees[j]
    requires forall f <- frees :: 0 <= f < |pool|
    requires forall f <- pool :: f == BLANK
    ensures Inv(Snap([], {}, frees, pool))
  {
    PinsAre(pool);
    assert Frames<Ptr>([]) == {};
    forall f | f in frees ensures pool[f].pinCount == 0 {
      assert pool[f] in pool;
    }
  }

  lemma NothingFree(used: set<Ptr>, frees: seq<Ptr>)
    ensures |used| + |frees| == 0 ==> used == {} && frees == []
  {
  }

  lemma EntryPool(pool: seq<Frame>, c: Contents<FrameId, Ptr>, n: nat)
    requires n < |c| && PoolsRight(pool, c)
    ensures 0 <= c[n].1 < |pool| && pool[c[n].1].frameId.bufferPoolId == c[n].0.bufferPoolId
  {
    assert c[n] in c;
  }
}
