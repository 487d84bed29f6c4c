/** What single steps of the frame manager's loops do to the functions of `FramePool` and `FramePurge`. */
module FrameSteps {
  import opened Recency
  import opened FramePool
  import opened FramePurge

  lemma PinAllNone<F>(s: State<F>)
    ensures PinAll(s, []) == s
  {
  }

  lemma EntriesUsed<F>(s: FramePool.State<F>)
    requires Inv(s)
    ensures forall e <- s.cache :: e.1 in s.used
    ensures forall f <- s.frees :: f !in s.used && f in s.pins
  {
    forall e | e in s.cache ensures e.1 in s.used {
      var i :| 0 <= i < |s.cache| && s.cache[i] == e;
      assert e.1 in Frames(s.cache);
    }
  }

  lemma FreeParts<F>(s: FramePool.State<F>, id: FrameId, f: F)
    ensures Free(s, id, f) ==
            FramePool.State(Without(Touch(s.cache, id), id), s.used - {f},
                            s.frees + (if f in s.used then [f] else []), s.pins[f := 0])
  {
    assert s.pins[f := PinOf(s, f)][f := 0] == s.pins[f := 0];
    if f !in s.used {
      assert s.used - {f} == s.used && s.frees + [] == s.frees;
    }
  }

  /** A reordered list has the same entries. */
  lemma TouchEntries<F>(c: Contents<FrameId, F>, id: FrameId)
    requires NoDup(c)
    ensures forall e <- Touch(c, id) :: e in c
  {
    if Has(c, id) {
      var n :| 0 <= n < |c| && c[n].0 == id;
      TouchIs(c, id, n);
    }
  }

  /** What a free leaves in the cache was there before, and is not the freed frame if it was cached under
      its key. */
  lemma FreeEntries<F>(s: FramePool.State<F>, id: FrameId, f: F)
    requires Inv(s)
    ensures forall e <- Free(s, id, f).cache :: e in s.cache && (Asserted(s, id, f) ==> e.1 != f)
  {
    var c := Touch(s.cache, id);
    TouchFrames(s.cache, id);
    TouchEntries(s.cache, id);
    TouchHas(s.cache, id);
    if Has(c, id) {
      var n :| 0 <= n < |c| && c[n].0 == id;
      TouchIs(c, id, n);
    } else {
      WithoutMissing(c, id);
    }
  }

  lemma {:induction false} InPoolNext<F>(c: Contents<FrameId, F>, pool: int, n: nat)
    requires n < |c|
    ensures InPool(c[..n + 1], pool) == InPool(c[..n], pool) + if c[n].0.bufferPoolId == pool then [c[n].1] else []
    decreases n
  {
    if n == 0 {
      assert c[..1][1..] == [] && c[..0] == [];
    } else {
      InPoolNext(c[1..], pool, n - 1);
      assert c[..n + 1][1..] == c[1..][..n] && c[..n][1..] == c[1..][..n - 1];
    }
  }

  lemma {:induction false} PinAllNext<F>(s: State<F>, fs: seq<F>, f: F)
    ensures PinAll(s, fs + [f]) == Pinned(PinAll(s, fs), f)
    decreases |fs|
  {
    if fs == [] {
      assert [f][1..] == [];
    } else {
      assert (fs + [f])[1..] == fs[1..] + [f];
      PinAllNext(Pinned(s, fs[0]), fs[1..], f);
    }
  }

  // ---------- The walk of purge_frames ----------

  /** What was found behind place n, and what is still to be found before it, are the candidates. */
  ghost predicate Walked<F>(s: State<F>, wanted: nat, n: nat, found: Contents<FrameId, F>) {
    && n <= |s.cache| && |found| <= wanted
    && Candidates(s.cache, s.pins, wanted) == found + Candidates(s.cache[..n], s.pins, wanted - |found|)
    && (forall j :: 0 <= j < |found| ==> InBack(s.cache, n, found[j]))
  }

  ghost predicate InBack<F>(c: Contents<FrameId, F>, n: nat, e: (FrameId, F)) {
    exists i :: n <= i < |c| && c[i] == e
  }

  lemma WalkStarts<F>(s: State<F>, wanted: nat)
    ensures Walked(s, wanted, |s.cache|, []) && PinAll(s, FramesOf([])) == s
  {
    assert s.cache[..|s.cache|] == s.cache;
  }

  lemma WalkedElsewhere<F>(s: State<F>, wanted: nat, n: nat, found: Contents<FrameId, F>, j: nat)
    requires Inv(s) && n < |s.cache| && j < |found| && InBack(s.cache, n + 1, found[j])
    ensures InBack(s.cache, n, found[j]) && found[j].1 != s.cache[n].1 && found[j].1 in s.used
  {
    var i :| n + 1 <= i < |s.cache| && s.cache[i] == found[j];
    assert s.cache[i].1 in Frames(s.cache);
  }

  /** The frame at place n has not been pinned by the walk yet. */
  lemma WalkPins<F>(s: State<F>, wanted: nat, n: nat, found: Contents<FrameId, F>)
    requires Inv(s) && n < |s.cache| && Walked(s, wanted, n + 1, found)
    ensures PinOf(PinAll(s, FramesOf(found)), s.cache[n].1) == PinOf(s, s.cache[n].1)
  {
    var f := s.cache[n].1;
    forall j | 0 <= j < |found| ensures found[j].1 != f && found[j].1 in s.used {
      WalkedElsewhere(s, wanted, n, found, j);
    }
    CachedIsUsed(s, n);
    hide Inv, Walked;
    PinAllKeeps(s, FramesOf(found));
    assert f !in FramesOf(found);
    assert multiset(FramesOf(found))[f] == 0;
  }

  /** Whether the entry at place n is a candidate is decided by its pin count. */
  lemma WalkOne<F>(s: State<F>, wanted: nat, n: nat, found: Contents<FrameId, F>)
    requires Inv(s) && n < |s.cache| && |found| < wanted && Walked(s, wanted, n + 1, found)
    ensures PinOf(PinAll(s, FramesOf(found)), s.cache[n].1) == PinOf(s, s.cache[n].1)
    ensures Walked(s, wanted, n, if PinOf(s, s.cache[n].1) == 0 then found + [s.cache[n]] else found)
    ensures FramesOf(found + [s.cache[n]]) == FramesOf(found) + [s.cache[n].1]
  {
    WalkPins(s, wanted, n, found);
    forall j | 0 <= j < |found| ensures InBack(s.cache, n, found[j]) {
      WalkedElsewhere(s, wanted, n, found, j);
    }
    hide Inv, PinAll;
    WalkOn(s, wanted, n, found);
    hide Walked;
    assert FramesOf(found + [s.cache[n]]) == FramesOf(found) + [s.cache[n].1];
  }

  lemma WalkOn<F>(s: State<F>, wanted: nat, n: nat, found: Contents<FrameId, F>)
    requires n < |s.cache| && |found| < wanted && Walked(s, wanted, n + 1, found)
    requires forall j :: 0 <= j < |found| ==> InBack(s.cache, n, found[j])
    ensures Walked(s, wanted, n, if PinOf(s, s.cache[n].1) == 0 then found + [s.cache[n]] else found)
  {
    var c := s.cache;
    assert InBack(c, n, c[n]);
    NextCandidate(c, s.pins, wanted - |found|, n);
    hide Candidates, InBack;
    if PinOf(s, c[n].1) == 0 {
      var rest := Candidates(c[..n], s.pins, wanted - |found| - 1);
      assert found + ([c[n]] + rest) == (found + [c[n]]) + rest;
    }
  }

  lemma NextCandidate<F>(c: Contents<FrameId, F>, pins: map<F, nat>, wanted: nat, n: nat)
    requires n < |c| && wanted > 0
    ensures Candidates(c[..n + 1], pins, wanted) ==
            if c[n].1 in pins && pins[c[n].1] > 0 then Candidates(c[..n], pins, wanted)
            else [c[n]] + Candidates(c[..n], pins, wanted - 1)
  {
    assert c[..n + 1][..n] == c[..n];
  }

  lemma CachedIsUsed<F>(s: State<F>, n: nat)
    requires Inv(s) && n < |s.cache|
    ensures s.cache[n].1 in s.used && s.cache[n].1 in s.pins
  {
    assert s.cache[n].1 in Frames(s.cache);
  }

  lemma WalkFull<F>(s: State<F>, wanted: nat, n: nat, found: Contents<FrameId, F>)
    requires Walked(s, wanted, n, found) && |found| == wanted
    ensures found == Candidates(s.cache, s.pins, wanted)
  {
  }

  lemma WalkEnds<F>(s: State<F>, wanted: nat, found: Contents<FrameId, F>)
    requires Walked(s, wanted, 0, found)
    ensures found == Candidates(s.cache, s.pins, wanted)
  {
  }

  // ---------- The sweep of purge_frames ----------

  lemma SweepNext<F>(s: State<F>, cands: Contents<FrameId, F>, verdicts: seq<bool>, k: nat)
    requires k < |cands| == |verdicts| && Inv(s) && Ready(s, cands[k..])
    ensures Asserted(s, cands[k].0, cands[k].1)
    ensures Gone(cands[k..], verdicts[k..])
              == (if verdicts[k] then [cands[k]] else []) + Gone(cands[k + 1..], verdicts[k + 1..])
    ensures var next := if verdicts[k] then Free(s, cands[k].0, cands[k].1) else Unpinned(s, cands[k].1);
            && Inv(next) && Ready(next, cands[k + 1..])
            && Sweep(s, cands[k..], verdicts[k..]) == Sweep(next, cands[k + 1..], verdicts[k + 1..])
  {
    SweepStep(s, cands[k..], verdicts[k]);
    assert cands[k..][1..] == cands[k + 1..] && verdicts[k..][1..] == verdicts[k + 1..];
    assert cands[k..][0] == cands[k] && verdicts[k..][0] == verdicts[k];
    hide Inv, Free, Unpinned;
  }

  /** The sweep has done its first k candidates. */
  ghost predicate Swept<F>(now: State<F>, s: State<F>, cands: Contents<FrameId, F>, verdicts: seq<bool>, k: nat,
          freed: nat) {
    && k <= |cands| == |verdicts|
    && Inv(now) && Ready(now, cands[k..])
    && Sweep(now, cands[k..], verdicts[k..]) == Sweep(s, cands, verdicts)
    && freed + |Gone(cands[k..], verdicts[k..])| == |Gone(cands, verdicts)|
  }

  lemma SweptStart<F>(s: State<F>, cands: Contents<FrameId, F>, verdicts: seq<bool>)
    requires |cands| == |verdicts| && Inv(s) && Ready(s, cands)
    ensures Swept(s, s, cands, verdicts, 0, 0)
  {
    assert cands[0..] == cands && verdicts[0..] == verdicts;
  }

  lemma SweptNext<F>(now: State<F>, s: State<F>, cands: Contents<FrameId, F>, verdicts: seq<bool>, k: nat, freed: nat)
    requires Swept(now, s, cands, verdicts, k, freed) && k < |cands|
    ensures Inv(now) && Asserted(now, cands[k].0, cands[k].1) && k < |verdicts|
    ensures verdicts[k] ==> Swept(Free(now, cands[k].0, cands[k].1), s, cands, verdicts, k + 1, freed + 1)
    ensures !verdicts[k] ==> Swept(Unpinned(now, cands[k].1), s, cands, verdicts, k + 1, freed)
  {
    SweepNext(now, cands, verdicts, k);
    hide Inv, Ready, Free, Unpinned, Sweep, Gone, Asserted;
  }

  lemma SweptEnd<F>(now: State<F>, s: State<F>, cands: Contents<FrameId, F>, verdicts: seq<bool>, freed: nat)
    requires Swept(now, s, cands, verdicts, |cands|, freed)
    ensures now == Sweep(s, cands, verdicts) && freed == |Gone(cands, verdicts)|
  {
  }

  // ---------- The sweep of purge_frames as written ----------

  ghost predicate SweptStored<F>(now: State<F>, s: State<F>, cands: Contents<FrameId, F>, verdicts: seq<bool>,
          k: nat, freed: nat) {
    && k <= |cands| == |verdicts|
    && SweepStored(now, cands[k..], verdicts[k..]) == SweepStored(s, cands, verdicts)
    && freed + |Gone(cands[k..], verdicts[k..])| == |Gone(cands, verdicts)|
  }

  lemma SweptStoredStart<F>(s: State<F>, cands: Contents<FrameId, F>, verdicts: seq<bool>)
    requires |cands| == |verdicts|
    ensures SweptStored(s, s, cands, verdicts, 0, 0)
  {
    assert cands[0..] == cands && verdicts[0..] == verdicts;
  }

  lemma SweptStoredNext<F>(now: State<F>, s: State<F>, cands: Contents<FrameId, F>, verdicts: seq<bool>, k: nat,
          freed: nat)
    requires SweptStored(now, s, cands, verdicts, k, freed) && k < |cands|
    ensures k < |verdicts|
    ensures verdicts[k] ==>
              SweptStored(Free(now, StoredId(cands[k].0), cands[k].1), s, cands, verdicts, k + 1, freed + 1)
    ensures !verdicts[k] ==> SweptStored(Unpinned(now, cands[k].1), s, cands, verdicts, k + 1, freed)
  {
    assert cands[k..][1..] == cands[k + 1..] && verdicts[k..][1..] == verdicts[k + 1..];
    assert cands[k..][0] == cands[k] && verdicts[k..][0] == verdicts[k];
    hide Free, Unpinned, StoredId;
  }

  lemma SweptStoredEnd<F>(now: State<F>, s: State<F>, cands: Contents<FrameId, F>, verdicts: seq<bool>, freed: nat)
    requires SweptStored(now, s, cands, verdicts, |cands|, freed)
    ensures now == SweepStored(s, cands, verdicts) && freed == |Gone(cands, verdicts)|
  {
  }

  /** What stays after a removal was there before. */
  lemma {:induction false} WithoutEntries<F>(c: Contents<FrameId, F>, k: FrameId)
    ensures forall e <- Without(c, k) :: e in c
  {
    if c != [] {
      WithoutEntries(c[1..], k);
    }
  }
}
