/** flush_batch as a run of the flusher's steps in `WalProtocol`. */
module WalBatch {
  import opened Bytes
  import opened LogEntry
  import opened LogFormat
  import opened LogBuffer
  import opened WalProtocol

  /** n entries written and dropped, one after the other. */
  function Pairs(n: nat): seq<Step> {
    if n == 0 then [] else [WriteFront, DropFront] + Pairs(n - 1)
  }

  /** The world after a batch that got n entries out. */
  function Flushed(w: World, n: nat): World
    requires n <= |w.buffer.entries|
  {
    w.(buffer := w.buffer.Drain(n), disk := w.disk + EncodeAll(w.buffer.entries[..n]))
  }

  /** The first n queued LSNs belong into the file. */
  predicate Fits(w: World, n: nat)
    requires n <= |w.buffer.entries|
  {
    forall i :: 0 <= i < n ==> w.buffer.entries[i].Lsn() < w.endLsn
  }

  lemma DrainRest(b: Buffer, n: nat)
    requires n <= |b.entries|
    ensures b.Drain(n).entries == b.entries[n..]
    decreases n
  {
    if n > 0 {
      DrainRest(b.Pop(), n - 1);
    }
  }

  /** One entry written and dropped. */
  lemma OnePair(w: World)
    requires w.flusher.Holding? && w.flusher.left > 0 && w.buffer.entries != [] && Fits(w, 1)
    ensures Runs(w, [WriteFront, DropFront])
    ensures After(w, [WriteFront, DropFront]) ==
            w.(buffer := w.buffer.Pop(), disk := w.disk + Encode(w.buffer.entries[0]),
               flusher := Holding(w.flusher.left - 1))
  {
    var v := Do(w, WriteFront);
    assert [WriteFront, DropFront][1..] == [DropFront];
    hide Encode;
    OneStep(v, DropFront);
  }

  lemma FlushedNext(w: World, v: World, n: nat)
    requires 0 < n <= |w.buffer.entries|
    requires v.buffer == w.buffer.Pop() && v.disk == w.disk + Encode(w.buffer.entries[0])
    requires v == w.(buffer := v.buffer, disk := v.disk, flusher := v.flusher)
    ensures Flushed(v, n - 1) == Flushed(w, n).(flusher := v.flusher)
  {
    var es := w.buffer.entries;
    assert es[..n] == [es[0]] + es[1..][..n - 1];
    hide Encode;
    var rest := EncodeAll(es[1..][..n - 1]);
    assert w.disk + Encode(es[0]) + rest == w.disk + (Encode(es[0]) + rest);
  }

  /** With the mutex held, n turns of the loop get exactly the n oldest entries out. */
  lemma {:induction false} PairsRun(w: World, n: nat)
    requires w.flusher.Holding? && n <= w.flusher.left && n <= |w.buffer.entries| && Fits(w, n)
    ensures Runs(w, Pairs(n))
    ensures After(w, Pairs(n)) == Flushed(w, n).(flusher := Holding(w.flusher.left - n))
    decreases n
  {
    if n == 0 {
      assert w.disk + EncodeAll(w.buffer.entries[..0]) == w.disk;
    } else {
      OnePair(w);
      var v := After(w, [WriteFront, DropFront]);
      assert forall i :: 0 <= i < n - 1 ==> v.buffer.entries[i] == w.buffer.entries[i + 1];
      hide Encode, EncodeAll, Enabled, Do, Runs, After, Flushed;
      PairsRun(v, n - 1);
      FlushedNext(w, v, n);
      RunsConcat(w, [WriteFront, DropFront], Pairs(n - 1));
    }
  }

  /** How many entries a batch of b takes on. */
  function Taken(w: World, b: nat): nat {
    if b < |w.buffer.entries| then b else |w.buffer.entries|
  }

  /** From the lock on, k turns of the loop and one more step of the flusher. */
  lemma LockedRun(w: World, b: nat, k: nat, last: Step)
    requires w.flusher.Resting? && w.LockFree() && k <= Taken(w, b) && Fits(w, k)
    requires Enabled(Flushed(w, k).(flusher := Holding(Taken(w, b) - k)), last)
    ensures Runs(w, [Lock(b)] + Pairs(k) + [last])
    ensures After(w, [Lock(b)] + Pairs(k) + [last]) == Do(Flushed(w, k).(flusher := Holding(Taken(w, b) - k)), last)
  {
    var v := w.(flusher := Holding(Taken(w, b)));
    assert Do(w, Lock(b)) == v;
    hide Encode, EncodeAll, Enabled, Do, Flushed;
    OneStep(w, Lock(b));
    PairsRun(v, k);
    SameFlushed(w, v, k);
    hide Runs, After;
    RunsConcat(w, [Lock(b)], Pairs(k));
    OneStep(After(w, [Lock(b)] + Pairs(k)), last);
    RunsConcat(w, [Lock(b)] + Pairs(k), [last]);
  }

  lemma SameFlushed(w: World, v: World, k: nat)
    requires k <= |w.buffer.entries| && v == w.(flusher := v.flusher)
    ensures Flushed(v, k) == Flushed(w, k).(flusher := v.flusher)
  {
  }

  /** A batch of b with no entry beyond the end of the file: exactly min(b, queue length) entries are
      written and dropped, then the mutex is free again, and nothing else has changed. */
  lemma WholeBatch(w: World, b: nat)
    requires w.flusher.Resting? && w.LockFree()
    requires var n := if b < |w.buffer.entries| then b else |w.buffer.entries|;
             forall i :: 0 <= i < n ==> w.buffer.entries[i].Lsn() < w.endLsn
    ensures var n := if b < |w.buffer.entries| then b else |w.buffer.entries|;
            var steps := [Lock(b)] + Pairs(n) + [Unlock];
            && Runs(w, steps)
            && After(w, steps) == w.(buffer := w.buffer.Drain(n), disk := w.disk + EncodeAll(w.buffer.entries[..n]))
  {
    LockedRun(w, b, Taken(w, b), Unlock);
  }

  /** A batch that reaches an entry beyond the end of the file at place k has drained exactly the k entries
      before it. */
  lemma FullBatch(w: World, b: nat, k: nat)
    requires w.flusher.Resting? && w.LockFree() && k < b && k < |w.buffer.entries|
    requires forall i :: 0 <= i < k ==> w.buffer.entries[i].Lsn() < w.endLsn
    requires w.buffer.entries[k].Lsn() >= w.endLsn
    ensures var steps := [Lock(b)] + Pairs(k) + [Full];
            && Runs(w, steps)
            && After(w, steps) == w.(buffer := w.buffer.Drain(k), disk := w.disk + EncodeAll(w.buffer.entries[..k]))
  {
    DrainRest(w.buffer, k);
    LockedRun(w, b, k, Full);
  }

  /** A batch whose write of entry k fails has drained exactly the k entries before it, and a proper prefix
      of entry k follows them on disk. */
  lemma TornBatch(w: World, b: nat, k: nat, n: nat)
    requires w.flusher.Resting? && w.LockFree() && k < b && k < |w.buffer.entries|
    requires forall i :: 0 <= i <= k ==> w.buffer.entries[i].Lsn() < w.endLsn
    requires n < |Encode(w.buffer.entries[k])|
    ensures var steps := [Lock(b)] + Pairs(k) + [TornWrite(n)];
            && Runs(w, steps)
            && After(w, steps) ==
               w.(buffer := w.buffer.Drain(k), flusher := Dead,
                  disk := w.disk + EncodeAll(w.buffer.entries[..k]) + Encode(w.buffer.entries[k])[..n])
  {
    DrainRest(w.buffer, k);
    hide Encode;
    LockedRun(w, b, k, TornWrite(n));
  }

  // ---------- The flusher always gets on ----------

  /** A batch never promises more entries than are queued. */
  predicate Covered(w: World) {
    && (w.flusher.Holding? ==> w.flusher.left <= |w.buffer.entries|)
    && (w.flusher.Wrote? ==> w.flusher.left < |w.buffer.entries|)
  }

  lemma StepKeepsCovered(w: World, s: Step)
    requires Covered(w) && Enabled(w, s)
    ensures Covered(Do(w, s))
  {
    hide Encode;
  }

  lemma {:induction false} RunKeepsCovered(w: World, steps: seq<Step>)
    requires Covered(w) && Runs(w, steps)
    ensures Covered(After(w, steps))
    decreases |steps|
  {
    hide Covered, Enabled, Do;
    if steps != [] {
      StepKeepsCovered(w, steps[0]);
      RunKeepsCovered(Do(w, steps[0]), steps[1..]);
    }
  }

  /** The steps of a batch that has the mutex; a write may also fail. */
  const BATCH_STEPS: set<Step> := {WriteFront, DropFront, Full, Unlock}

  /** In every reachable state in which the flusher has the mutex exactly one step of its batch is possible,
      the write being the only one that can fail, and no thread can queue an entry or is between queueing
      and counting one.  Without the mutex none is. */
  lemma OneStepOfBatch(n: nat, lsn: Int64, maxBytes: nat, endLsn: Int64, steps: seq<Step>)
    requires maxBytes > 0 && Runs(Start(n, lsn, maxBytes, endLsn), steps)
    ensures var w := After(Start(n, lsn, maxBytes, endLsn), steps);
            var holds := w.flusher.Holding? || w.flusher.Wrote?;
            && |set s | s in BATCH_STEPS && Enabled(w, s)| == (if holds then 1 else 0)
            && (forall t: nat :: Enabled(w, TornWrite(t)) <==>
                                   Enabled(w, WriteFront) && t < |Encode(w.buffer.entries[0])|)
            && (holds ==> forall t, m, data :: !Enabled(w, Enqueue(t, m, data)) && !Enabled(w, Count(t)))
  {
    var w0 := Start(n, lsn, maxBytes, endLsn);
    var w := After(w0, steps);
    assert Covered(w0);
    RunKeepsCovered(w0, steps);
    StartInv(n, lsn, maxBytes, endLsn);
    RunKeepsInv(w0, lsn, steps);
    hide Encode, Runs, After, Start, LsnOrder, Durable, BytesCounted;
    OnlyStep(w);
  }

  lemma OnlyStep(w: World)
    requires Covered(w)
    ensures var possible := set s | s in BATCH_STEPS && Enabled(w, s);
            possible == if w.flusher.Wrote? then {DropFront}
                        else if !w.flusher.Holding? then {}
                        else if w.flusher.left == 0 then {Unlock}
                        else if w.buffer.entries[0].Lsn() < w.endLsn then {WriteFront}
                        else {Full}
  {
  }

  /** From every such state the batch ends with the mutex free, after as many turns as it still has entries
      to go or at the first entry beyond the end of the file. */
  lemma {:induction false} HeldBatchEnds(w: World) returns (k: nat)
    requires w.flusher.Holding? && Covered(w)
    ensures k <= w.flusher.left && Fits(w, k)
    ensures k < w.flusher.left ==> w.buffer.entries[k].Lsn() >= w.endLsn
    ensures var steps := Pairs(k) + [if k < w.flusher.left then Full else Unlock];
            Runs(w, steps) && After(w, steps) == Flushed(w, k).(flusher := Resting)
  {
    k := 0;
    while k < w.flusher.left && w.buffer.entries[k].Lsn() < w.endLsn
      invariant k <= w.flusher.left && Fits(w, k)
    {
      k := k + 1;
    }
    var last := if k < w.flusher.left then Full else Unlock;
    DrainRest(w.buffer, k);
    PairsRun(w, k);
    var v := After(w, Pairs(k));
    assert Enabled(v, last) && Do(v, last) == Flushed(w, k).(flusher := Resting);
    hide Encode, EncodeAll, Enabled, Do, Runs, After, Flushed;
    OneStep(v, last);
    RunsConcat(w, Pairs(k), [last]);
  }
}
