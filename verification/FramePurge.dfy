/** find_list, purge_frames and whole runs of the frame manager, on the state of `FramePool`. */
module FramePurge {
  import opened Recency
  import opened FramePool

  // ---------- find_list ----------

  /** The frames of one buffer pool, most recently used first. */
  function InPool<F>(c: Contents<FrameId, F>, pool: int): seq<F> {
    if c == [] then []
    else (if c[0].0.bufferPoolId == pool then [c[0].1] else []) + InPool(c[1..], pool)
  }

  function FindList<F>(s: State<F>, pool: int): State<F> {
    PinAll(s, InPool(s.cache, pool))
  }

  lemma {:induction false} InPoolUsed<F>(c: Contents<FrameId, F>, pool: int)
    ensures forall f <- InPool(c, pool) :: exists i :: 0 <= i < |c| && c[i].1 == f && c[i].0.bufferPoolId == pool
    ensures forall i :: 0 <= i < |c| && c[i].0.bufferPoolId == pool ==> c[i].1 in InPool(c, pool)
  {
    if c != [] {
      var rest := c[1..];
      InPoolUsed(rest, pool);
      forall f | f in InPool(c, pool) ensures exists i :: 0 <= i < |c| && c[i].1 == f && c[i].0.bufferPoolId == pool {
        if f in InPool(rest, pool) {
          var i :| 0 <= i < |rest| && rest[i].1 == f && rest[i].0.bufferPoolId == pool;
          assert c[i + 1].1 == f;
        } else {
          assert c[0].1 == f;
        }
      }
      forall i | 0 <= i < |c| && c[i].0.bufferPoolId == pool ensures c[i].1 in InPool(c, pool) {
        if i > 0 {
          assert rest[i - 1] == c[i];
        }
      }
    }
  }

  lemma FindListKeeps<F>(s: State<F>, pool: int)
    requires Inv(s)
    ensures Inv(FindList(s, pool)) && FindList(s, pool).Size() == s.Size()
  {
    InPoolUsed(s.cache, pool);
    forall f | f in InPool(s.cache, pool) ensures f in s.used {
      var i :| 0 <= i < |s.cache| && s.cache[i].1 == f && s.cache[i].0.bufferPoolId == pool;
      assert f in Frames(s.cache);
    }
    PinAllKeeps(s, InPool(s.cache, pool));
  }

  /** A frame is listed once if it is cached under that pool, and not otherwise. */
  lemma {:induction false} InPoolOnce<F>(c: Contents<FrameId, F>, pool: int, f: F)
    requires forall i, j :: 0 <= i < j < |c| ==> c[i].1 != c[j].1
    ensures multiset(InPool(c, pool))[f] == if CachedIn(c, pool, f) then 1 else 0
    decreases |c|
  {
    if c != [] {
      var rest := c[1..];
      InPoolOnce(rest, pool, f);
      CachedInTail(c, pool, f);
      if c[0].0.bufferPoolId == pool {
        assert InPool(c, pool) == [c[0].1] + InPool(rest, pool);
      } else {
        assert InPool(c, pool) == InPool(rest, pool);
      }
    }
  }

  ghost predicate CachedIn<F>(c: Contents<FrameId, F>, pool: int, f: F) {
    exists i :: 0 <= i < |c| && c[i].1 == f && c[i].0.bufferPoolId == pool
  }

  lemma CachedInTail<F>(c: Contents<FrameId, F>, pool: int, f: F)
    requires c != [] && forall i, j :: 0 <= i < j < |c| ==> c[i].1 != c[j].1
    ensures CachedIn(c, pool, f) <==> (c[0].1 == f && c[0].0.bufferPoolId == pool) || CachedIn(c[1..], pool, f)
    ensures c[0].1 == f ==> !CachedIn(c[1..], pool, f)
  {
    if i :| 0 <= i < |c| && c[i].1 == f && c[i].0.bufferPoolId == pool {
      if i > 0 {
        assert c[1..][i - 1].1 == f;
      }
    }
    if i :| 0 <= i < |c[1..]| && c[1..][i].1 == f && c[1..][i].0.bufferPoolId == pool {
      assert c[i + 1].1 == f;
    }
  }

  /** find_list gives exactly the cached frames of the buffer pool one more pin each, and changes nothing
      else. */
  lemma FindListPins<F>(s: State<F>, pool: int, f: F)
    requires Inv(s)
    ensures FindList(s, pool) == s.(pins := FindList(s, pool).pins)
    ensures PinOf(FindList(s, pool), f) == PinOf(s, f) + if CachedIn(s.cache, pool, f) then 1 else 0
  {
    InPoolUsed(s.cache, pool);
    forall g | g in InPool(s.cache, pool) ensures g in s.used {
      var i :| 0 <= i < |s.cache| && s.cache[i].1 == g && s.cache[i].0.bufferPoolId == pool;
      assert g in Frames(s.cache);
    }
    InPoolOnce(s.cache, pool, f);
    hide InPool, CachedIn;
    PinAllKeeps(s, InPool(s.cache, pool));
    if f !in s.pins {
      assert f !in InPool(s.cache, pool);
      PinAllElsewhere(s, InPool(s.cache, pool), f);
    }
  }

  // ---------- purge_frames ----------

  /** Up to n unpinned entries, from the least recently used on. */
  function Candidates<F>(c: Contents<FrameId, F>, pins: map<F, nat>, n: nat): Contents<FrameId, F> {
    if c == [] || n == 0 then []
    else
      var front, last := c[..|c| - 1], c[|c| - 1];
      if last.1 in pins && pins[last.1] > 0 then Candidates(front, pins, n)
      else [last] + Candidates(front, pins, n - 1)
  }

  function FramesOf<F>(c: Contents<FrameId, F>): seq<F> {
    seq(|c|, i requires 0 <= i < |c| => c[i].1)
  }

  /** The second loop of purge_frames: an entry whose purger succeeds is freed under its key, the others
      are unpinned again. */
  function Sweep<F>(s: State<F>, cands: Contents<FrameId, F>, verdicts: seq<bool>): State<F>
    requires |verdicts| == |cands|
    decreases |cands|
  {
    if cands == [] then s
    else
      var next := if verdicts[0] then Free(s, cands[0].0, cands[0].1) else Unpinned(s, cands[0].1);
      Sweep(next, cands[1..], verdicts[1..])
  }

  function Purge<F>(s: State<F>, count: int, verdicts: seq<bool>): State<F>
    requires |verdicts| == |Candidates(s.cache, s.pins, Wanted(count))|
  {
    var cands := Candidates(s.cache, s.pins, Wanted(count));
    Sweep(PinAll(s, FramesOf(cands)), cands, verdicts)
  }

  function Wanted(count: int): nat {
    if count <= 0 then 1 else count
  }

  /** The entries whose purger succeeded. */
  function Gone<F>(cands: Contents<FrameId, F>, verdicts: seq<bool>): Contents<FrameId, F>
    requires |verdicts| == |cands|
  {
    if cands == [] then []
    else (if verdicts[0] then [cands[0]] else []) + Gone(cands[1..], verdicts[1..])
  }

  function WithoutAll<F>(c: Contents<FrameId, F>, gone: Contents<FrameId, F>): Contents<FrameId, F>
    decreases |gone|
  {
    if gone == [] then c else WithoutAll(Without(c, gone[0].0), gone[1..])
  }

  function Unpinneds<F>(c: Contents<FrameId, F>, pins: map<F, nat>): nat {
    if c == [] then 0
    else (if c[|c| - 1].1 in pins && pins[c[|c| - 1].1] > 0 then 0 else 1) + Unpinneds(c[..|c| - 1], pins)
  }

  /** The candidates are as many as asked for, or all there are. */
  lemma {:induction false} CandidateCount<F>(c: Contents<FrameId, F>, pins: map<F, nat>, n: nat)
    ensures |Candidates(c, pins, n)| == if n < Unpinneds(c, pins) then n else Unpinneds(c, pins)
  {
    if c != [] && n > 0 {
      var last := c[|c| - 1];
      CandidateCount(c[..|c| - 1], pins, if last.1 in pins && pins[last.1] > 0 then n else n - 1);
    }
  }

  /** Where the j-th candidate stands in the list. */
  function PlaceOf<F>(c: Contents<FrameId, F>, pins: map<F, nat>, n: nat, j: nat): nat {
    if c == [] || n == 0 then 0
    else
      var front, last := c[..|c| - 1], c[|c| - 1];
      if last.1 in pins && pins[last.1] > 0 then PlaceOf(front, pins, n, j)
      else if j == 0 then |c| - 1
      else PlaceOf(front, pins, n - 1, j - 1)
  }

  lemma {:induction false} CandidatePlace<F>(c: Contents<FrameId, F>, pins: map<F, nat>, n: nat, j: nat)
    requires j < |Candidates(c, pins, n)|
    ensures PlaceOf(c, pins, n, j) < |c| && c[PlaceOf(c, pins, n, j)] == Candidates(c, pins, n)[j]
    ensures PlaceOf(c, pins, n, j) + j < |c|
    ensures var f := Candidates(c, pins, n)[j].1; !(f in pins && pins[f] > 0)
  {
    var front, last := c[..|c| - 1], c[|c| - 1];
    if last.1 in pins && pins[last.1] > 0 {
      CandidatePlace(front, pins, n, j);
    } else if j > 0 {
      CandidatePlace(front, pins, n - 1, j - 1);
    }
  }

  lemma {:induction false} CandidatesDescend<F>(c: Contents<FrameId, F>, pins: map<F, nat>, n: nat, i: nat, j: nat)
    requires i < j < |Candidates(c, pins, n)|
    ensures PlaceOf(c, pins, n, j) < PlaceOf(c, pins, n, i)
  {
    var front, last := c[..|c| - 1], c[|c| - 1];
    if last.1 in pins && pins[last.1] > 0 {
      CandidatesDescend(front, pins, n, i, j);
    } else if i > 0 {
      CandidatesDescend(front, pins, n - 1, i - 1, j - 1);
    } else {
      CandidatePlace(front, pins, n - 1, j - 1);
    }
  }

  /** An unpinned entry that stands at or behind some candidate is a candidate itself: the candidates are
      the least recently used ones. */
  lemma {:induction false} CandidatesAreOldest<F>(c: Contents<FrameId, F>, pins: map<F, nat>, n: nat, j: nat, at: nat)
    requires j < |Candidates(c, pins, n)| && PlaceOf(c, pins, n, j) <= at < |c|
    requires !(c[at].1 in pins && pins[c[at].1] > 0)
    ensures c[at] in Candidates(c, pins, n)
  {
    var front, last := c[..|c| - 1], c[|c| - 1];
    if last.1 in pins && pins[last.1] > 0 {
      CandidatesAreOldest(front, pins, n, j, at);
    } else if j > 0 && at < |c| - 1 {
      CandidatesAreOldest(front, pins, n - 1, j - 1, at);
      assert c[at] in Candidates(front, pins, n - 1);
    }
  }

  /** The state a sweep step relies on: each remaining candidate is cached under its key and pinned once. */
  ghost predicate Ready<F>(s: State<F>, cands: Contents<FrameId, F>) {
    && NoDup(cands)
    && (forall i, j :: 0 <= i < j < |cands| ==> cands[i].1 != cands[j].1)
    && (forall i :: 0 <= i < |cands| ==> Asserted(s, cands[i].0, cands[i].1))
  }

  lemma ValueOfWithout<F>(c: Contents<FrameId, F>, k: FrameId, x: FrameId)
    requires NoDup(c) && x != k && Has(c, x)
    ensures Has(Without(c, k), x) && ValueOf(Without(c, k), x) == ValueOf(c, x)
  {
    WithoutHas(c, k, x);
    WithoutNoDup(c, k);
    var w := Without(c, k);
    var i: nat :| i < |w| && w[i].0 == x;
    ValueAt(w, i);
    OriginFacts(c, k, i);
    ValueAt(c, Origin(c, k, i));
  }

  lemma WithoutTouch<F>(c: Contents<FrameId, F>, k: FrameId)
    requires NoDup(c)
    ensures Without(Touch(c, k), k) == Without(c, k)
  {
    if Has(c, k) {
      assert Touch(c, k)[0].0 == k;
      assert Touch(c, k)[1..] == Without(c, k);
    }
  }

  /** Freeing one candidate: the reordering done by the lookup leaves no trace. */
  lemma FreeOne<F>(s: State<F>, id: FrameId, f: F)
    requires Inv(s) && Asserted(s, id, f)
    ensures var t := Free(s, id, f);
            && Inv(t) && t.Size() == s.Size()
            && t.cache == Without(s.cache, id)
            && t.used == s.used - {f} && t.frees == s.frees + [f] && t.pins == s.pins[f := 0]
  {
    FreeKeepsExactly(s, id, f);
    TouchFrames(s.cache, id);
    WithoutTouch(s.cache, id);
    hide Touch, Without, ValueOf, OneToOne;
  }

  lemma SweepStep<F>(s: State<F>, cands: Contents<FrameId, F>, verdict: bool)
    requires Inv(s) && Ready(s, cands) && cands != []
    ensures var next := if verdict then Free(s, cands[0].0, cands[0].1) else Unpinned(s, cands[0].1);
            Inv(next) && Ready(next, cands[1..]) && next.Size() == s.Size()
  {
    var id, f := cands[0].0, cands[0].1;
    TouchFrames(s.cache, id);
    if verdict {
      FreeOne(s, id, f);
      forall i | 0 < i < |cands| ensures Asserted(Free(s, id, f), cands[i].0, cands[i].1) {
        ValueOfWithout(s.cache, id, cands[i].0);
        hide Free, Without, ValueOf;
      }
    } else {
      PinKeeps(s, f);
    }
  }

  /** The sweep removes exactly the successfully purged entries and restores the pins of the others. */
  lemma {:induction false} SweepSpec<F>(s: State<F>, cands: Contents<FrameId, F>, verdicts: seq<bool>)
    requires Inv(s) && Ready(s, cands) && |verdicts| == |cands|
    ensures var t := Sweep(s, cands, verdicts);
            && Inv(t) && t.Size() == s.Size()
            && t.cache == WithoutAll(s.cache, Gone(cands, verdicts))
            && t.frees == s.frees + FramesOf(Gone(cands, verdicts))
    decreases |cands|
  {
    hide Inv, Ready, Free, Unpinned;
    if cands == [] {
      assert s.frees + [] == s.frees;
    } else {
      var id, f := cands[0].0, cands[0].1;
      var next := if verdicts[0] then Free(s, id, f) else Unpinned(s, f);
      SweepStep(s, cands, verdicts[0]);
      SweepSpec(next, cands[1..], verdicts[1..]);
      FirstStep(s, cands, verdicts[0]);
      GoneStep(s.cache, s.frees, cands, verdicts);
      hide Gone, WithoutAll, FramesOf, Without;
    }
  }

  lemma GoneStep<F>(c: Contents<FrameId, F>, frees: seq<F>, cands: Contents<FrameId, F>, verdicts: seq<bool>)
    requires |verdicts| == |cands| > 0
    ensures var gone, rest := Gone(cands, verdicts), Gone(cands[1..], verdicts[1..]);
            && (!verdicts[0] ==> gone == rest)
            && (verdicts[0] ==>
                  && WithoutAll(c, gone) == WithoutAll(Without(c, cands[0].0), rest)
                  && frees + FramesOf(gone) == frees + [cands[0].1] + FramesOf(rest))
  {
    hide Without;
    var rest := Gone(cands[1..], verdicts[1..]);
    if verdicts[0] {
      assert ([cands[0]] + rest)[1..] == rest;
      assert FramesOf([cands[0]] + rest) == [cands[0].1] + FramesOf(rest);
    } else {
      assert [] + rest == rest;
    }
  }

  lemma FirstStep<F>(s: State<F>, cands: Contents<FrameId, F>, verdict: bool)
    requires Inv(s) && Ready(s, cands) && cands != []
    ensures verdict ==> Free(s, cands[0].0, cands[0].1).cache == Without(s.cache, cands[0].0)
                        && Free(s, cands[0].0, cands[0].1).frees == s.frees + [cands[0].1]
    ensures !verdict ==> Unpinned(s, cands[0].1).cache == s.cache && Unpinned(s, cands[0].1).frees == s.frees
  {
    if verdict {
      FreeOne(s, cands[0].0, cands[0].1);
    }
  }

  /** The pin count a frame has after a sweep: candidates are back at zero, all others untouched. */
  lemma {:induction false} SweepPins<F>(s: State<F>, cands: Contents<FrameId, F>, verdicts: seq<bool>, f: F)
    requires Inv(s) && Ready(s, cands) && |verdicts| == |cands|
    ensures PinOf(Sweep(s, cands, verdicts), f) ==
            if exists i :: 0 <= i < |cands| && cands[i].1 == f then 0 else PinOf(s, f)
    decreases |cands|
  {
    if cands != [] {
      var next := if verdicts[0] then Free(s, cands[0].0, cands[0].1) else Unpinned(s, cands[0].1);
      SweepStep(s, cands, verdicts[0]);
      StepPins(s, cands, verdicts[0], f);
      hide Inv, Ready, Free, Unpinned;
      SweepPins(next, cands[1..], verdicts[1..], f);
      if i :| 0 <= i < |cands| && cands[i].1 == f {
        if i > 0 {
          assert cands[1..][i - 1].1 == f;
        }
      }
      if i :| 0 <= i < |cands[1..]| && cands[1..][i].1 == f {
        assert cands[i + 1].1 == f;
      }
    }
  }

  lemma StepPins<F>(s: State<F>, cands: Contents<FrameId, F>, verdict: bool, f: F)
    requires Inv(s) && Ready(s, cands) && cands != []
    ensures var next := if verdict then Free(s, cands[0].0, cands[0].1) else Unpinned(s, cands[0].1);
            PinOf(next, f) == if cands[0].1 == f then 0 else PinOf(s, f)
  {
    if verdict {
      FreeOne(s, cands[0].0, cands[0].1);
    }
  }

  lemma {:induction false} FramesOfCount<F>(c: Contents<FrameId, F>, f: F)
    requires forall i, j :: 0 <= i < j < |c| ==> c[i].1 != c[j].1
    ensures multiset(FramesOf(c))[f] == if exists i :: 0 <= i < |c| && c[i].1 == f then 1 else 0
    decreases |c|
  {
    if c == [] {
      assert FramesOf(c) == [];
    } else {
      var rest := c[1..];
      FramesOfCount(rest, f);
      assert FramesOf(c) == [c[0].1] + FramesOf(rest);
      if i :| 0 <= i < |c| && c[i].1 == f {
        if i > 0 {
          assert rest[i - 1].1 == f;
        }
      }
      if i :| 0 <= i < |rest| && rest[i].1 == f {
        assert c[i + 1].1 == f;
      }
    }
  }

  lemma CandidatesReady<F>(s: State<F>, n: nat)
    requires Inv(s)
    ensures var cands := Candidates(s.cache, s.pins, n);
            && (forall f <- FramesOf(cands) :: f in s.used)
            && Ready(PinAll(s, FramesOf(cands)), cands)
            && Inv(PinAll(s, FramesOf(cands)))
            && PinAll(s, FramesOf(cands)) == s.(pins := PinAll(s, FramesOf(cands)).pins)
  {
    var c := s.cache;
    var cands := Candidates(c, s.pins, n);
    forall i: nat | i < |cands| ensures cands[i].1 in s.used && PinOf(s, cands[i].1) == 0
      ensures Has(c, cands[i].0) && ValueOf(c, cands[i].0) == cands[i].1
    {
      CandidatePlace(c, s.pins, n, i);
      ValueAt(c, PlaceOf(c, s.pins, n, i));
      assert cands[i].1 in Frames(c);
    }
    forall i: nat, j: nat | i < j < |cands| ensures cands[i].0 != cands[j].0 && cands[i].1 != cands[j].1 {
      CandidatePlace(c, s.pins, n, i);
      CandidatePlace(c, s.pins, n, j);
      CandidatesDescend(c, s.pins, n, i, j);
    }
    PinAllKeeps(s, FramesOf(cands));
    forall i: nat | i < |cands| ensures Asserted(PinAll(s, FramesOf(cands)), cands[i].0, cands[i].1) {
      FramesOfCount(cands, cands[i].1);
    }
  }

  /** purge_frames: pins and offers exactly the min(max(count, 1), available) least recently used unpinned
      frames, removes those whose purger succeeds, in that order, and leaves every other pin count and
      the pool's size as they were. */
  lemma PurgeSpec<F>(s: State<F>, count: int, verdicts: seq<bool>)
    requires Inv(s) && |verdicts| == |Candidates(s.cache, s.pins, Wanted(count))|
    ensures var cands, t := Candidates(s.cache, s.pins, Wanted(count)), Purge(s, count, verdicts);
            && |cands| == (if Wanted(count) < Unpinneds(s.cache, s.pins) then Wanted(count)
                           else Unpinneds(s.cache, s.pins))
            && Inv(t) && t.Size() == s.Size()
            && t.cache == WithoutAll(s.cache, Gone(cands, verdicts))
            && t.frees == s.frees + FramesOf(Gone(cands, verdicts))
  {
    var cands := Candidates(s.cache, s.pins, Wanted(count));
    CandidateCount(s.cache, s.pins, Wanted(count));
    CandidatesReady(s, Wanted(count));
    hide Inv, Ready, Candidates;
    SweepSpec(PinAll(s, FramesOf(cands)), cands, verdicts);
  }

  /** No pin count changes: in particular a frame that was pinned is not a candidate and stays as it
      was. */
  lemma PurgeKeepsPins<F>(s: State<F>, count: int, verdicts: seq<bool>, f: F)
    requires Inv(s) && |verdicts| == |Candidates(s.cache, s.pins, Wanted(count))|
    ensures PinOf(Purge(s, count, verdicts), f) == PinOf(s, f)
    ensures PinOf(s, f) > 0 && f in s.used ==> f in Purge(s, count, verdicts).used
  {
    var cands := Candidates(s.cache, s.pins, Wanted(count));
    CandidatesReady(s, Wanted(count));
    var p := PinAll(s, FramesOf(cands));
    SweepPins(p, cands, verdicts, f);
    PinAllKeeps(s, FramesOf(cands));
    if i :| 0 <= i < |cands| && cands[i].1 == f {
      CandidatePlace(s.cache, s.pins, Wanted(count), i);
    } else {
      PinAllElsewhere(s, FramesOf(cands), f);
    }
    if PinOf(s, f) > 0 && f in s.used {
      SweepUsed(p, cands, verdicts, f);
    }
  }

  lemma {:induction false} PinAllElsewhere<F>(s: State<F>, fs: seq<F>, f: F)
    requires f !in fs
    ensures PinOf(PinAll(s, fs), f) == PinOf(s, f)
    decreases |fs|
  {
    if fs != [] {
      PinAllElsewhere(Pinned(s, fs[0]), fs[1..], f);
    }
  }

  lemma {:induction false} SweepUsed<F>(s: State<F>, cands: Contents<FrameId, F>, verdicts: seq<bool>, f: F)
    requires Inv(s) && Ready(s, cands) && |verdicts| == |cands| && f in s.used
    requires forall i :: 0 <= i < |cands| ==> cands[i].1 != f
    ensures f in Sweep(s, cands, verdicts).used
    decreases |cands|
  {
    if cands != [] {
      var next := if verdicts[0] then Free(s, cands[0].0, cands[0].1) else Unpinned(s, cands[0].1);
      SweepStep(s, cands, verdicts[0]);
      if verdicts[0] {
        FreeOne(s, cands[0].0, cands[0].1);
      }
      hide Inv, Ready, Free, Unpinned;
      SweepUsed(next, cands[1..], verdicts[1..], f);
    }
  }

  /** Survivors keep their order: what stands before another entry afterwards stood before it already,
      and nothing but the purged keys is missing. */
  lemma {:induction false} SurvivorsKeepOrder<F>(c: Contents<FrameId, F>, gone: Contents<FrameId, F>, x: FrameId,
          y: FrameId)
    requires NoDup(c)
    ensures NoDup(WithoutAll(c, gone))
    ensures Precedes(WithoutAll(c, gone), x, y) ==> Precedes(c, x, y)
    ensures Has(WithoutAll(c, gone), x) <==> Has(c, x) && forall i :: 0 <= i < |gone| ==> gone[i].0 != x
    decreases |gone|
  {
    if gone != [] {
      var w, k := Without(c, gone[0].0), gone[0].0;
      WithoutNoDup(c, k);
      WithoutHas(c, k, x);
      SurvivorsKeepOrder(w, gone[1..], x, y);
      if Precedes(w, x, y) {
        var i: nat, j: nat :| i < j < |w| && w[i].0 == x && w[j].0 == y;
        WithoutOrder(c, k, i, j);
      }
      if forall i :: 0 <= i < |gone[1..]| ==> gone[1..][i].0 != x {
        assert forall i :: 0 < i < |gone| ==> gone[i] == gone[1..][i - 1];
      }
      if forall i :: 0 <= i < |gone| ==> gone[i].0 != x {
        assert forall i :: 0 <= i < |gone[1..]| ==> gone[1..][i] == gone[i + 1];
      }
    }
  }

  // ---------- Which frames go ----------

  /** The places of the unpinned entries. */
  ghost function UnpinnedPlaces<F>(c: Contents<FrameId, F>, pins: map<F, nat>): set<nat> {
    set i: nat | i < |c| && !(c[i].1 in pins && pins[c[i].1] > 0)
  }

  lemma {:induction false} UnpinnedsAre<F>(c: Contents<FrameId, F>, pins: map<F, nat>)
    ensures Unpinneds(c, pins) == |UnpinnedPlaces(c, pins)|
  {
    if c != [] {
      var front, last := c[..|c| - 1], c[|c| - 1];
      UnpinnedsAre(front, pins);
      if last.1 in pins && pins[last.1] > 0 {
        assert UnpinnedPlaces(c, pins) == UnpinnedPlaces(front, pins);
      } else {
        assert UnpinnedPlaces(c, pins) == UnpinnedPlaces(front, pins) + {|c| - 1};
      }
    }
  }

  /** purge_frames offers min(max(count, 1), n) frames, n being the number of cached frames without a pin. */
  lemma OfferedCount<F>(s: State<F>, count: int)
    ensures var n := |set i: nat | i < |s.cache| && PinOf(s, s.cache[i].1) == 0|;
            var most := if count < 1 then 1 else count;
            |Candidates(s.cache, s.pins, Wanted(count))| == if most < n then most else n
  {
    CandidateCount(s.cache, s.pins, Wanted(count));
    UnpinnedsAre(s.cache, s.pins);
    assert UnpinnedPlaces(s.cache, s.pins) == set i: nat | i < |s.cache| && PinOf(s, s.cache[i].1) == 0;
  }

  lemma {:induction false} GoneLast<F>(cands: Contents<FrameId, F>, verdicts: seq<bool>)
    requires |verdicts| == |cands| > 0
    ensures var n := |cands| - 1;
            Gone(cands, verdicts) == Gone(cands[..n], verdicts[..n]) + if verdicts[n] then [cands[n]] else []
    decreases |cands|
  {
    var n := |cands| - 1;
    if n > 0 {
      GoneLast(cands[1..], verdicts[1..]);
      assert cands[1..][..n - 1] == cands[..n][1..] && verdicts[1..][..n - 1] == verdicts[..n][1..];
    }
  }

  lemma TruesLast(verdicts: seq<bool>, n: nat)
    requires |verdicts| == n + 1
    ensures |set k: nat | k < n + 1 && verdicts[k]|
            == |set k: nat | k < n && verdicts[..n][k]| + if verdicts[n] then 1 else 0
  {
    var front := set k: nat | k < n && verdicts[..n][k];
    var all := set k: nat | k < n + 1 && verdicts[k];
    assert all == front + if verdicts[n] then {n} else {};
  }

  lemma {:induction false} GoneCount<F>(cands: Contents<FrameId, F>, verdicts: seq<bool>)
    requires |verdicts| == |cands|
    ensures |Gone(cands, verdicts)| == |set k: nat | k < |cands| && verdicts[k]|
    decreases |cands|
  {
    if cands != [] {
      var n := |cands| - 1;
      GoneLast(cands, verdicts);
      GoneCount(cands[..n], verdicts[..n]);
      TruesLast(verdicts, n);
    }
  }

  /** Of the entries offered exactly those with a good verdict are no longer cached, and every other entry
      still is. */
  lemma PurgedAre<F>(s: State<F>, count: int, verdicts: seq<bool>, x: FrameId)
    requires Inv(s) && |verdicts| == |Candidates(s.cache, s.pins, Wanted(count))|
    ensures var cands := Candidates(s.cache, s.pins, Wanted(count));
            Has(Purge(s, count, verdicts).cache, x) <==>
            Has(s.cache, x) && forall k: nat :: k < |cands| && cands[k].0 == x ==> !verdicts[k]
  {
    var cands := Candidates(s.cache, s.pins, Wanted(count));
    PurgeSpec(s, count, verdicts);
    SurvivorsKeepOrder(s.cache, Gone(cands, verdicts), x, x);
    hide Candidates, Gone, WithoutAll, Purge, Has, Inv;
    GoneKeys(cands, verdicts, x);
  }

  /** The keys that go are those with a good verdict. */
  lemma {:induction false} GoneKeys<F>(cands: Contents<FrameId, F>, verdicts: seq<bool>, x: FrameId)
    requires |verdicts| == |cands|
    ensures var gone := Gone(cands, verdicts);
            (forall i :: 0 <= i < |gone| ==> gone[i].0 != x) <==>
            (forall k: nat :: k < |cands| && cands[k].0 == x ==> !verdicts[k])
    decreases |cands|
  {
    if cands != [] {
      var n := |cands| - 1;
      GoneLast(cands, verdicts);
      GoneKeys(cands[..n], verdicts[..n], x);
      hide Gone;
      var gone, front := Gone(cands, verdicts), Gone(cands[..n], verdicts[..n]);
      assert gone[..|front|] == front && (verdicts[n] ==> gone[|front|] == cands[n]);
      if i :| 0 <= i < |front| && front[i].0 == x {
        assert gone[i].0 == x;
      }
      if k: nat :| k < n && cands[..n][k].0 == x && verdicts[..n][k] {
        assert cands[k].0 == x && verdicts[k];
      }
    }
  }

  /** The sweep as written takes exactly the frames with a good verdict out of use. */
  lemma {:induction false} SweepStoredUsed<F>(s: State<F>, cands: Contents<FrameId, F>, verdicts: seq<bool>, f: F)
    requires |verdicts| == |cands|
    ensures f in SweepStored(s, cands, verdicts).used <==>
            f in s.used && forall k: nat :: k < |cands| && cands[k].1 == f ==> !verdicts[k]
    decreases |cands|
  {
    if cands != [] {
      FreeCache(s, StoredId(cands[0].0), cands[0].1);
      hide Free;
      var next := if verdicts[0] then Free(s, StoredId(cands[0].0), cands[0].1) else Unpinned(s, cands[0].1);
      SweepStoredUsed(next, cands[1..], verdicts[1..], f);
      if k: nat :| k < |cands| && cands[k].1 == f && verdicts[k] {
        assert k > 0 ==> cands[1..][k - 1].1 == f && verdicts[1..][k - 1];
      }
      if k: nat :| k < |cands[1..]| && cands[1..][k].1 == f && verdicts[1..][k] {
        assert cands[k + 1].1 == f && verdicts[k + 1];
      }
    }
  }

  /** purge_frames as written takes exactly the frames with a good verdict out of use. */
  lemma PurgeStoredUsed<F>(s: State<F>, count: int, verdicts: seq<bool>, f: F)
    requires |verdicts| == |Candidates(s.cache, s.pins, Wanted(count))|
    ensures var cands := Candidates(s.cache, s.pins, Wanted(count));
            f in PurgeStored(s, count, verdicts).used <==>
            f in s.used && forall k: nat :: k < |cands| && cands[k].1 == f ==> !verdicts[k]
  {
    var cands := Candidates(s.cache, s.pins, Wanted(count));
    PinAllUsed(s, FramesOf(cands));
    hide Candidates, SweepStored;
    SweepStoredUsed(PinAll(s, FramesOf(cands)), cands, verdicts, f);
  }

  lemma {:induction false} PinAllUsed<F>(s: State<F>, fs: seq<F>)
    ensures PinAll(s, fs).used == s.used
    decreases |fs|
  {
    if fs != [] {
      PinAllUsed(Pinned(s, fs[0]), fs[1..]);
    }
  }

  /** What is offered is cached, each key and frame once. */
  lemma OfferedOnce<F>(s: State<F>, n: nat)
    requires Inv(s)
    ensures var cands := Candidates(s.cache, s.pins, n);
            && (forall k: nat :: k < |cands| ==> Has(s.cache, cands[k].0) && cands[k].1 in s.used)
            && (forall j, k :: 0 <= j < k < |cands| ==> cands[j].0 != cands[k].0 && cands[j].1 != cands[k].1)
  {
    CandidatesReady(s, n);
    var cands := Candidates(s.cache, s.pins, n);
    forall k: nat | k < |cands| ensures Has(s.cache, cands[k].0) && cands[k].1 in s.used {
      assert FramesOf(cands)[k] == cands[k].1;
      assert Asserted(PinAll(s, FramesOf(cands)), cands[k].0, cands[k].1);
    }
  }

  // ---------- The key purge_frames uses ----------

  /** frame->frame_id() of a frame that alloc put under `key`: only the pool id was set in it. */
  function StoredId(key: FrameId): FrameId {
    FrameId(key.bufferPoolId, INVALID_PAGE_NUM)
  }

  lemma StoredIdIs(key: FrameId)
    ensures StoredId(key) == FrameId(key.bufferPoolId, -1)
  {
  }

  /** purge_frames as written frees a frame under the id stored in it.  That keeps cache and pool in
      agreement if and only if the frame was allocated for page -1. */
  lemma StoredIdWorksExactly<F>(s: State<F>, at: nat)
    requires Inv(s) && at < |s.cache|
    ensures Inv(Free(s, StoredId(s.cache[at].0), s.cache[at].1)) <==> s.cache[at].0.pageNum == INVALID_PAGE_NUM
  {
    var key, f := s.cache[at].0, s.cache[at].1;
    var id := StoredId(key);
    assert f in Frames(s.cache);
    ValueAt(s.cache, at);
    FreeKeepsExactly(s, id, f);
    hide Free;
    if Has(s.cache, id) {
      var i :| 0 <= i < |s.cache| && s.cache[i].0 == id;
      ValueAt(s.cache, i);
    }
  }

  /** The sweep of purge_frames as written: a frame is freed under the id stored in it. */
  function SweepStored<F>(s: State<F>, cands: Contents<FrameId, F>, verdicts: seq<bool>): State<F>
    requires |verdicts| == |cands|
    decreases |cands|
  {
    if cands == [] then s
    else
      var next := if verdicts[0] then Free(s, StoredId(cands[0].0), cands[0].1) else Unpinned(s, cands[0].1);
      SweepStored(next, cands[1..], verdicts[1..])
  }

  function PurgeStored<F>(s: State<F>, count: int, verdicts: seq<bool>): State<F>
    requires |verdicts| == |Candidates(s.cache, s.pins, Wanted(count))|
  {
    var cands := Candidates(s.cache, s.pins, Wanted(count));
    SweepStored(PinAll(s, FramesOf(cands)), cands, verdicts)
  }

  /** Every frame purged was allocated for page -1. */
  predicate PurgesPageless<F>(cands: Contents<FrameId, F>, verdicts: seq<bool>)
    requires |verdicts| == |cands|
  {
    forall i :: 0 <= i < |cands| && verdicts[i] ==> cands[i].0.pageNum == INVALID_PAGE_NUM
  }

  /** A frame is cached under a real page number although it is not in use. */
  ghost predicate Dangling<F>(s: State<F>) {
    exists e <- s.cache :: e.0.pageNum != INVALID_PAGE_NUM && e.1 !in s.used
  }

  lemma DanglingBreaks<F>(s: State<F>)
    requires Dangling(s)
    ensures !Inv(s)
  {
    var e :| e in s.cache && e.0.pageNum != INVALID_PAGE_NUM && e.1 !in s.used;
    var i :| 0 <= i < |s.cache| && s.cache[i] == e;
    assert e.1 in Frames(s.cache);
  }

  lemma {:induction false} WithoutKeeps<F>(c: Contents<FrameId, F>, k: FrameId, e: (FrameId, F))
    requires e in c && e.0 != k
    ensures e in Without(c, k)
  {
    if c[0] != e && c[0].0 != k {
      WithoutKeeps(c[1..], k, e);
    }
  }

  lemma FreeCache<F>(s: State<F>, id: FrameId, f: F)
    ensures Free(s, id, f).cache == Without(s.cache, id) && Free(s, id, f).used == s.used - {f}
  {
    if Has(s.cache, id) {
      assert Touch(s.cache, id)[0].0 == id && Touch(s.cache, id)[1..] == Without(s.cache, id);
    }
    if f !in s.used {
      assert s.used - {f} == s.used;
    }
  }

  lemma DanglingStays<F>(s: State<F>, key: FrameId, f: F)
    requires Dangling(s)
    ensures Dangling(Free(s, StoredId(key), f)) && Dangling(Unpinned(s, f))
  {
    var e :| e in s.cache && e.0.pageNum != INVALID_PAGE_NUM && e.1 !in s.used;
    FreeCache(s, StoredId(key), f);
    WithoutKeeps(s.cache, StoredId(key), e);
    hide Free;
  }

  lemma {:induction false} DanglingSweep<F>(s: State<F>, cands: Contents<FrameId, F>, verdicts: seq<bool>)
    requires Dangling(s) && |verdicts| == |cands|
    ensures !Inv(SweepStored(s, cands, verdicts))
    decreases |cands|
  {
    if cands == [] {
      DanglingBreaks(s);
    } else {
      DanglingStays(s, cands[0].0, cands[0].1);
      hide Dangling, Inv, Free, Unpinned, StoredId;
      var next := if verdicts[0] then Free(s, StoredId(cands[0].0), cands[0].1) else Unpinned(s, cands[0].1);
      DanglingSweep(next, cands[1..], verdicts[1..]);
    }
  }

  /** Freeing a page's frame under the stored id leaves its entry in the cache. */
  lemma StoredFreeDangles<F>(s: State<F>, key: FrameId, f: F)
    requires Inv(s) && Asserted(s, key, f) && key.pageNum != INVALID_PAGE_NUM
    ensures Dangling(Free(s, StoredId(key), f))
  {
    var i :| 0 <= i < |s.cache| && s.cache[i].0 == key;
    ValueAt(s.cache, i);
    FreeCache(s, StoredId(key), f);
    assert s.cache[i] in s.cache;
    WithoutKeeps(s.cache, StoredId(key), s.cache[i]);
    hide Free;
  }

  lemma {:induction false} SweepStoredExactly<F>(s: State<F>, cands: Contents<FrameId, F>, verdicts: seq<bool>)
    requires Inv(s) && Ready(s, cands) && |verdicts| == |cands|
    ensures Inv(SweepStored(s, cands, verdicts)) <==> PurgesPageless(cands, verdicts)
    ensures PurgesPageless(cands, verdicts) ==> SweepStored(s, cands, verdicts) == Sweep(s, cands, verdicts)
    decreases |cands|
  {
    if cands != [] {
      var id, f := cands[0].0, cands[0].1;
      PagelessRest(cands, verdicts);
      SweepStep(s, cands, verdicts[0]);
      if verdicts[0] && id.pageNum != INVALID_PAGE_NUM {
        StoredFreeDangles(s, id, f);
        hide Inv, Ready, Free, PurgesPageless;
        DanglingSweep(Free(s, StoredId(id), f), cands[1..], verdicts[1..]);
      } else {
        assert verdicts[0] ==> StoredId(id) == id;
        hide Inv, Ready, Free, Unpinned, PurgesPageless;
        SweepStoredExactly(if verdicts[0] then Free(s, id, f) else Unpinned(s, f), cands[1..], verdicts[1..]);
      }
    }
  }

  lemma PagelessRest<F>(cands: Contents<FrameId, F>, verdicts: seq<bool>)
    requires |verdicts| == |cands| > 0
    ensures PurgesPageless(cands, verdicts) <==>
            (verdicts[0] ==> cands[0].0.pageNum == INVALID_PAGE_NUM) && PurgesPageless(cands[1..], verdicts[1..])
  {
    if PurgesPageless(cands[1..], verdicts[1..]) {
      assert forall i :: 0 < i < |cands| ==> cands[i] == cands[1..][i - 1] && verdicts[i] == verdicts[1..][i - 1];
    }
  }

  /** purge_frames as written keeps cache and pool in agreement if and only if every frame it removes was
      allocated for page -1; it then does what it is meant to do. */
  lemma PurgeStoredExactly<F>(s: State<F>, count: int, verdicts: seq<bool>)
    requires Inv(s) && |verdicts| == |Candidates(s.cache, s.pins, Wanted(count))|
    ensures var cands := Candidates(s.cache, s.pins, Wanted(count));
            && (Inv(PurgeStored(s, count, verdicts)) <==> PurgesPageless(cands, verdicts))
            && (PurgesPageless(cands, verdicts) ==> PurgeStored(s, count, verdicts) == Purge(s, count, verdicts))
  {
    var cands := Candidates(s.cache, s.pins, Wanted(count));
    CandidatesReady(s, Wanted(count));
    hide Inv, Ready, Candidates, PurgesPageless;
    SweepStoredExactly(PinAll(s, FramesOf(cands)), cands, verdicts);
  }

  // ---------- Whole runs ----------

  /** The calls of FrameManager, and a client giving back its pin.  A purge frees under the key the frame
      was put under. */
  datatype Op<F> =
    | GetOp(id: FrameId)
    | FindListOp(pool: int)
    | AllocOp(id: FrameId)
    | FreeOp(id: FrameId, frame: F)
    | PurgeOp(count: int, verdicts: seq<bool>)
    | UnpinOp(frame: F)

  /** What the callers have to keep to: no second alloc for a cached page, and the ASSERT of free. */
  predicate Legal<F>(s: State<F>, op: Op<F>) {
    match op
    case AllocOp(id) => !Has(s.cache, id)
    case FreeOp(id, f) => Asserted(s, id, f)
    case PurgeOp(count, verdicts) => |verdicts| == |Candidates(s.cache, s.pins, Wanted(count))|
    case UnpinOp(f) => f in s.used && PinOf(s, f) > 0
    case GetOp(_) => true
    case FindListOp(_) => true
  }

  function Do<F>(s: State<F>, op: Op<F>): State<F>
    requires Legal(s, op)
  {
    match op
    case GetOp(id) => Get(s, id)
    case FindListOp(pool) => FindList(s, pool)
    case AllocOp(id) => Alloc(s, id)
    case FreeOp(id, f) => Free(s, id, f)
    case PurgeOp(count, verdicts) => Purge(s, count, verdicts)
    case UnpinOp(f) => Unpinned(s, f)
  }

  predicate LegalRun<F>(s: State<F>, ops: seq<Op<F>>)
    decreases |ops|
  {
    ops == [] || (Legal(s, ops[0]) && LegalRun(Do(s, ops[0]), ops[1..]))
  }

  function RunAll<F>(s: State<F>, ops: seq<Op<F>>): State<F>
    requires LegalRun(s, ops)
    decreases |ops|
  {
    if ops == [] then s else RunAll(Do(s, ops[0]), ops[1..])
  }

  lemma StepKeeps<F>(s: State<F>, op: Op<F>)
    requires Inv(s) && Legal(s, op)
    ensures Inv(Do(s, op)) && Do(s, op).Size() == s.Size()
  {
    match op
    case GetOp(id) => GetKeeps(s, id);
    case FindListOp(pool) => FindListKeeps(s, pool);
    case AllocOp(id) => AllocKeepsExactly(s, id);
    case FreeOp(id, f) => FreeKeepsExactly(s, id, f);
    case PurgeOp(count, verdicts) => PurgeSpec(s, count, verdicts);
    case UnpinOp(f) => PinKeeps(s, f);
  }

  /** After any legal run from a freshly initialised pool of n frames: the cached frames are exactly the
      used ones, no key or frame is cached twice, the free frames are unpinned, and used and free frames
      together are still n. */
  lemma {:induction false} RunKeeps<F>(s: State<F>, ops: seq<Op<F>>)
    requires Inv(s) && LegalRun(s, ops)
    ensures Inv(RunAll(s, ops)) && RunAll(s, ops).Size() == s.Size()
    decreases |ops|
  {
    if ops != [] {
      StepKeeps(s, ops[0]);
      hide Inv;
      RunKeeps(Do(s, ops[0]), ops[1..]);
    }
  }

  /** A frame that more than one holder has pinned is recycled by no call. */
  lemma HeldFramesStay<F>(s: State<F>, op: Op<F>, f: F)
    requires Inv(s) && Legal(s, op) && f in s.used && PinOf(s, f) > 1
    ensures f in Do(s, op).used && PinOf(Do(s, op), f) >= PinOf(s, f) - if op == UnpinOp(f) then 1 else 0
  {
    match op
    case GetOp(id) =>
    case FindListOp(pool) =>
      InPoolUsed(s.cache, pool);
      forall g | g in InPool(s.cache, pool) ensures g in s.used {
        var i :| 0 <= i < |s.cache| && s.cache[i].1 == g && s.cache[i].0.bufferPoolId == pool;
        assert g in Frames(s.cache);
      }
      PinAllKeeps(s, InPool(s.cache, pool));
    case AllocOp(id) =>
    case FreeOp(id, g) => FreeOne(s, id, g);
    case PurgeOp(count, verdicts) => PurgeKeepsPins(s, count, verdicts, f);
    case UnpinOp(g) =>
  }
}
