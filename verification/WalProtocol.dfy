/** The log buffer under N appending threads and a flusher: every interleaving.

    A thread first passes the unlocked fullness check of `append`, then takes the mutex, gets its LSN and
    queues its entry, and adds the entry's size to the atomic byte counter, which other threads read
    without the lock.  The flusher holds the mutex for a batch and writes, then drops, one entry at a
    time.  A failed write leaves a torn record and ends all writing.
 */
module WalProtocol {
  import opened Bytes
  import opened ReturnCode
  import opened Io
  import opened LogEntry
  import opened LogFormat
  import opened LogBuffer

  datatype Thread = Idle | Passed | Queued(size: int)

  /** `left` entries of the batch are still to go. */
  datatype Flusher = Resting | Holding(left: nat) | Wrote(left: nat) | Dead

  /** `accepted` records the entries in the order in which their LSNs were given out. */
  datatype World = World(buffer: Buffer, threads: seq<Thread>, flusher: Flusher, disk: seq<Byte>,
                         maxBytes: nat, endLsn: Int64, accepted: seq<Entry>)
  {
    predicate LockFree() {
      && (flusher.Resting? || flusher.Dead?)
      && forall t :: 0 <= t < |threads| ==> !threads[t].Queued?
    }

    function With(t: nat, s: Thread): World
      requires t < |threads|
    {
      this.(threads := threads[t := s])
    }
  }

  datatype Step =
    | Pass(t: nat)
    | Refuse(t: nat, data: seq<Byte>)
    | Enqueue(t: nat, moduleId: Int32, data: seq<Byte>)
    | Count(t: nat)
    | Lock(batch: nat)
    | WriteFront
    | DropFront
    | Full
    | Unlock
    | TornWrite(n: nat)

  predicate Enabled(w: World, s: Step) {
    match s
    case Pass(t) => t < |w.threads| && w.threads[t].Idle? && w.buffer.currentBytes < w.maxBytes
    case Refuse(t, data) => t < |w.threads| && w.threads[t].Passed? && MAX_PAYLOAD_SIZE < |data| < TWO_31
    case Enqueue(t, _, data) =>
      && t < |w.threads| && w.threads[t].Passed? && |data| <= MAX_PAYLOAD_SIZE
      && w.LockFree() && w.buffer.currentLsn < MAX_LSN
    case Count(t) => t < |w.threads| && w.threads[t].Queued?
    case Lock(_) => w.flusher.Resting? && w.LockFree()
    case WriteFront =>
      && w.flusher.Holding? && w.flusher.left > 0
      && w.buffer.entries != [] && w.buffer.entries[0].Lsn() < w.endLsn
    case DropFront => w.flusher.Wrote? && w.buffer.entries != []
    case Full =>
      && w.flusher.Holding? && w.flusher.left > 0
      && w.buffer.entries != [] && w.buffer.entries[0].Lsn() >= w.endLsn
    case Unlock => w.flusher.Holding? && w.flusher.left == 0
    case TornWrite(n) =>
      w.flusher.Holding? && w.flusher.left > 0 && w.buffer.entries != [] && w.buffer.entries[0].Lsn() < w.endLsn
      && n < |Encode(w.buffer.entries[0])|
  }

  function Do(w: World, s: Step): World
    requires Enabled(w, s)
  {
    match s
    case Pass(t) => w.With(t, Passed)
    case Refuse(t, _) => w.With(t, Idle)
    case Enqueue(t, moduleId, data) =>
      var lsn := w.buffer.currentLsn + 1;
      var e := MakeEntry(lsn, moduleId, data);
      w.With(t, Queued(e.TotalSize())).(buffer := w.buffer.(entries := w.buffer.entries + [e], currentLsn := lsn),
                                        accepted := w.accepted + [e])
    case Count(t) =>
      w.With(t, Idle).(buffer := w.buffer.(currentBytes := w.buffer.currentBytes + w.threads[t].size))
    case Lock(batch) => w.(flusher := Holding(Min(batch, |w.buffer.entries|)))
    case WriteFront => w.(disk := w.disk + Encode(w.buffer.entries[0]), flusher := Wrote(w.flusher.left - 1))
    case DropFront => w.(buffer := w.buffer.Pop(), flusher := Holding(w.flusher.left))
    case Full => w.(flusher := Resting)
    case Unlock => w.(flusher := Resting)
    case TornWrite(n) => w.(disk := w.disk + Encode(w.buffer.entries[0])[..n], flusher := Dead)
  }

  predicate Runs(w: World, steps: seq<Step>)
    decreases |steps|
  {
    steps == [] || (Enabled(w, steps[0]) && Runs(Do(w, steps[0]), steps[1..]))
  }

  function After(w: World, steps: seq<Step>): World
    requires Runs(w, steps)
    decreases |steps|
  {
    if steps == [] then w else After(Do(w, steps[0]), steps[1..])
  }

  /** `init(lsn, max)` and n idle threads. */
  function Start(n: nat, lsn: Int64, maxBytes: nat, endLsn: Int64): World {
    World(Buffer([], 0, lsn, lsn), seq(n, _ => Idle), Resting, [], maxBytes, endLsn, [])
  }

  // ---------- The invariant ----------

  /** How many threads are past the fullness check and not yet counted. */
  function Busy(threads: seq<Thread>): nat {
    if threads == [] then 0 else (if threads[0].Idle? then 0 else 1) + Busy(threads[1..])
  }

  /** Bytes queued but not yet counted. */
  function Uncounted(threads: seq<Thread>): int {
    if threads == [] then 0 else (if threads[0].Queued? then threads[0].size else 0) + Uncounted(threads[1..])
  }

  ghost predicate OneHolder(w: World) {
    && (w.flusher.Holding? || w.flusher.Wrote? ==> forall t :: 0 <= t < |w.threads| ==> !w.threads[t].Queued?)
    && (forall t, u :: 0 <= t < u < |w.threads| ==> !(w.threads[t].Queued? && w.threads[u].Queued?))
    && (forall t :: 0 <= t < |w.threads| && w.threads[t].Queued? ==> w.threads[t].size <= MAX_SIZE)
  }

  /** How many accepted entries have left the queue. */
  function Gone(w: World): int {
    |w.accepted| - |w.buffer.entries|
  }

  /** How many accepted entries have whole records on disk. */
  function OnDisk(w: World): int {
    Gone(w) + if w.flusher.Wrote? then 1 else 0
  }

  ghost predicate LsnOrder(w: World, base: Int64) {
    && AllSized(w.accepted)
    && (forall i :: 0 <= i < |w.accepted| ==> w.accepted[i].Lsn() == base + 1 + i)
    && w.buffer.currentLsn == base + |w.accepted|
    && 0 <= Gone(w) && w.buffer.entries == w.accepted[Gone(w)..]
    && w.buffer.flushedLsn == base + Gone(w)
  }

  ghost predicate Durable(w: World) {
    && 0 <= OnDisk(w) <= |w.accepted|
    && if w.flusher.Dead? then
         && OnDisk(w) < |w.accepted|
         && Torn(w.disk, EncodeAll(w.accepted[..OnDisk(w)]), Encode(w.accepted[OnDisk(w)]))
       else w.disk == EncodeAll(w.accepted[..OnDisk(w)])
  }

  ghost predicate BytesCounted(w: World) {
    && w.buffer.currentBytes + Uncounted(w.threads) == TotalBytes(w.buffer.entries)
    && w.buffer.currentBytes <= w.maxBytes - 1 + (|w.threads| - Busy(w.threads)) * MAX_SIZE
  }

  ghost predicate Inv(w: World, base: Int64) {
    OneHolder(w) && LsnOrder(w, base) && Durable(w) && BytesCounted(w)
  }

  lemma {:induction false} ThreadChange(threads: seq<Thread>, t: nat, s: Thread)
    requires t < |threads|
    ensures Busy(threads[t := s]) == Busy(threads) + (if s.Idle? then 0 else 1) - (if threads[t].Idle? then 0 else 1)
    ensures Uncounted(threads[t := s]) ==
            Uncounted(threads) + (if s.Queued? then s.size else 0)
            - (if threads[t].Queued? then threads[t].size else 0)
    ensures Busy(threads) <= |threads|
    decreases |threads|
  {
    BusyBound(threads);
    if t > 0 {
      assert threads[t := s][1..] == threads[1..][t - 1 := s];
      ThreadChange(threads[1..], t - 1, s);
    } else {
      assert threads[t := s][1..] == threads[1..];
    }
  }

  lemma {:induction false} BusyBound(threads: seq<Thread>)
    ensures Busy(threads) <= |threads|
  {
    if threads != [] {
      BusyBound(threads[1..]);
    }
  }

  lemma EnqueueKeepsOrder(w: World, base: Int64, t: nat, moduleId: Int32, data: seq<Byte>)
    requires Inv(w, base) && Enabled(w, Enqueue(t, moduleId, data))
    ensures var v := Do(w, Enqueue(t, moduleId, data)); LsnOrder(v, base) && Durable(v)
  {
    hide Encode, Uncounted, Busy, TotalBytes;
    var v := Do(w, Enqueue(t, moduleId, data));
    AcceptedIsSizedExactly(w.buffer.currentLsn + 1, moduleId, data);
    assert v.buffer.entries == v.accepted[Gone(v)..];
    assert v.accepted[..OnDisk(v)] == w.accepted[..OnDisk(w)];
  }

  lemma EnqueueKeepsBytes(w: World, base: Int64, t: nat, moduleId: Int32, data: seq<Byte>)
    requires Inv(w, base) && Enabled(w, Enqueue(t, moduleId, data))
    ensures var v := Do(w, Enqueue(t, moduleId, data)); OneHolder(v) && BytesCounted(v)
  {
    hide Encode, EncodeAll;
    var v := Do(w, Enqueue(t, moduleId, data));
    var e := MakeEntry(w.buffer.currentLsn + 1, moduleId, data);
    AcceptedIsSizedExactly(w.buffer.currentLsn + 1, moduleId, data);
    ThreadChange(w.threads, t, v.threads[t]);
    TotalBytesConcat(w.buffer.entries, [e]);
    assert TotalBytes([e]) == e.TotalSize() + TotalBytes([]);
  }

  lemma EnqueueKeeps(w: World, base: Int64, t: nat, moduleId: Int32, data: seq<Byte>)
    requires Inv(w, base) && Enabled(w, Enqueue(t, moduleId, data))
    ensures Inv(Do(w, Enqueue(t, moduleId, data)), base)
  {
    EnqueueKeepsOrder(w, base, t, moduleId, data);
    EnqueueKeepsBytes(w, base, t, moduleId, data);
    hide Enabled, Do, LsnOrder, Durable, OneHolder, BytesCounted;
  }

  lemma CountKeeps(w: World, base: Int64, t: nat)
    requires Inv(w, base) && Enabled(w, Count(t))
    ensures Inv(Do(w, Count(t)), base)
  {
    ThreadChange(w.threads, t, Idle);
    assert (|w.threads| - Busy(w.threads) + 1) * MAX_SIZE == (|w.threads| - Busy(w.threads)) * MAX_SIZE + MAX_SIZE;
  }

  lemma PassKeeps(w: World, base: Int64, t: nat)
    requires Inv(w, base) && Enabled(w, Pass(t))
    ensures Inv(Do(w, Pass(t)), base)
  {
    ThreadChange(w.threads, t, Passed);
    BusyBound(w.threads[t := Passed]);
    assert (|w.threads| - Busy(w.threads[t := Passed])) * MAX_SIZE >= 0;
  }

  lemma RefuseKeeps(w: World, base: Int64, t: nat, data: seq<Byte>)
    requires Inv(w, base) && Enabled(w, Refuse(t, data))
    ensures Inv(Do(w, Refuse(t, data)), base)
  {
    ThreadChange(w.threads, t, Idle);
    assert (|w.threads| - Busy(w.threads) + 1) * MAX_SIZE == (|w.threads| - Busy(w.threads)) * MAX_SIZE + MAX_SIZE;
  }

  lemma WriteKeeps(w: World, base: Int64)
    requires Inv(w, base) && Enabled(w, WriteFront)
    ensures Inv(Do(w, WriteFront), base)
  {
    hide Encode;
    OneMoreEncoded(w.accepted, Gone(w));
  }

  lemma FaultKeeps(w: World, base: Int64, n: nat)
    requires Inv(w, base) && Enabled(w, TornWrite(n))
    ensures Inv(Do(w, TornWrite(n)), base)
  {
  }

  lemma DropKeeps(w: World, base: Int64)
    requires Inv(w, base) && Enabled(w, DropFront)
    ensures Inv(Do(w, DropFront), base)
  {
    hide Encode;
    var v := Do(w, DropFront);
    assert w.buffer.entries[0] == w.accepted[Gone(w)] && w.accepted[Gone(w)].Sized();
    assert v.buffer.entries == v.accepted[Gone(v)..];
    TotalBytesCovers(v.buffer.entries);
  }

  /** The steps that only change the flusher's state. */
  lemma MutexKeeps(w: World, base: Int64, s: Step)
    requires Inv(w, base) && Enabled(w, s) && (s.Lock? || s.Full? || s.Unlock?)
    ensures Inv(Do(w, s), base)
  {
    hide Encode;
  }

  lemma StepKeepsInv(w: World, base: Int64, s: Step)
    requires Inv(w, base) && Enabled(w, s)
    ensures Inv(Do(w, s), base)
  {
    hide Inv, Enabled, Do;
    match s
    case Pass(t) => PassKeeps(w, base, t);
    case Refuse(t, data) => RefuseKeeps(w, base, t, data);
    case Enqueue(t, m, data) => EnqueueKeeps(w, base, t, m, data);
    case Count(t) => CountKeeps(w, base, t);
    case WriteFront => WriteKeeps(w, base);
    case DropFront => DropKeeps(w, base);
    case TornWrite(n) => FaultKeeps(w, base, n);
    case Lock(_) => MutexKeeps(w, base, s);
    case Full => MutexKeeps(w, base, s);
    case Unlock => MutexKeeps(w, base, s);
  }

  lemma {:induction false} RunKeepsInv(w: World, base: Int64, steps: seq<Step>)
    requires Inv(w, base) && Runs(w, steps)
    ensures Inv(After(w, steps), base)
    decreases |steps|
  {
    if steps != [] {
      StepKeepsInv(w, base, steps[0]);
      RunKeepsInv(Do(w, steps[0]), base, steps[1..]);
    }
  }

  // ---------- Main results ----------

  lemma StartInv(n: nat, lsn: Int64, maxBytes: nat, endLsn: Int64)
    requires maxBytes > 0
    ensures Inv(Start(n, lsn, maxBytes, endLsn), lsn)
  {
    IdleThreads(n);
  }

  lemma {:induction false} IdleThreads(n: nat)
    ensures var ts: seq<Thread> := seq(n, _ => Idle); Busy(ts) == 0 && Uncounted(ts) == 0
  {
    if n > 0 {
      IdleThreads(n - 1);
      var ts: seq<Thread> := seq(n, _ => Idle);
      assert ts[1..] == seq(n - 1, _ => Idle);
    }
  }

  /** LSN and byte accounting in every reachable state.  While the flusher is at work the byte counter is
      exact, so what it subtracts is always there. */
  lemma AccountingInEveryState(n: nat, lsn: Int64, maxBytes: nat, endLsn: Int64, steps: seq<Step>)
    requires maxBytes > 0 && Runs(Start(n, lsn, maxBytes, endLsn), steps)
    ensures var w := After(Start(n, lsn, maxBytes, endLsn), steps);
            var b := w.buffer;
            && (forall i :: 0 <= i < |b.entries| ==> b.entries[i].Lsn() == b.flushedLsn + 1 + i)
            && b.currentLsn == b.flushedLsn + |b.entries|
            && (w.LockFree() || w.flusher.Holding? || w.flusher.Wrote? ==> b.Accounted())
            && (w.flusher.Wrote? && b.entries != [] ==> b.entries[0].TotalSize() <= b.currentBytes)
  {
    hide Encode, EncodeAll, Runs, After, Start;
    StartInv(n, lsn, maxBytes, endLsn);
    RunKeepsInv(Start(n, lsn, maxBytes, endLsn), lsn, steps);
    var w := After(Start(n, lsn, maxBytes, endLsn), steps);
    if w.LockFree() || w.flusher.Holding? || w.flusher.Wrote? {
      NothingUncounted(w.threads);
    }
    if w.buffer.entries != [] {
      TotalBytesCovers(w.buffer.entries[1..]);
    }
  }

  lemma {:induction false} NothingUncounted(threads: seq<Thread>)
    requires forall t :: 0 <= t < |threads| ==> !threads[t].Queued?
    ensures Uncounted(threads) == 0
  {
    if threads != [] {
      NothingUncounted(threads[1..]);
    }
  }

  /** Back-pressure: although every thread may pass the unlocked check before any of them queues its
      entry, the byte counter stays below the limit plus one maximal entry per thread. */
  lemma BoundedBytes(n: nat, lsn: Int64, maxBytes: nat, endLsn: Int64, steps: seq<Step>)
    requires maxBytes > 0 && Runs(Start(n, lsn, maxBytes, endLsn), steps)
    ensures After(Start(n, lsn, maxBytes, endLsn), steps).buffer.currentBytes <= maxBytes - 1 + n * MAX_SIZE
  {
    hide Encode, EncodeAll, TotalBytes;
    var w0 := Start(n, lsn, maxBytes, endLsn);
    StartInv(n, lsn, maxBytes, endLsn);
    RunKeepsInv(w0, lsn, steps);
    Unchanged(w0, steps);
    var w := After(w0, steps);
    assert (|w.threads| - Busy(w.threads)) * MAX_SIZE <= n * MAX_SIZE;
  }

  lemma {:induction false} Unchanged(w: World, steps: seq<Step>)
    requires Runs(w, steps)
    ensures |After(w, steps).threads| == |w.threads| && After(w, steps).maxBytes == w.maxBytes
    ensures w.accepted <= After(w, steps).accepted
    decreases |steps|
  {
    if steps != [] {
      Unchanged(Do(w, steps[0]), steps[1..]);
    }
  }

  /** Durability: whatever the interleaving, in every reachable state the queue is exactly the accepted
      entries after flushed_lsn, and the file is exactly the encoding of those up to it, and of the one
      whose write has just returned; after a failed write a proper prefix of one more record follows.
      Nothing is lost, duplicated or reordered, whatever stopped a batch. */
  lemma DurablePrefix(n: nat, lsn: Int64, maxBytes: nat, endLsn: Int64, steps: seq<Step>)
    requires maxBytes > 0 && Runs(Start(n, lsn, maxBytes, endLsn), steps)
    ensures var w := After(Start(n, lsn, maxBytes, endLsn), steps);
            var k := w.buffer.flushedLsn - lsn;
            var d := k + if w.flusher.Wrote? then 1 else 0;
            && 0 <= k <= d <= |w.accepted| && w.buffer.entries == w.accepted[k..]
            && (forall i :: 0 <= i < |w.accepted| ==> w.accepted[i].Lsn() == lsn + 1 + i)
            && (!w.flusher.Dead? ==> w.disk == EncodeAll(w.accepted[..d]))
            && (w.flusher.Dead? ==> d < |w.accepted| && Torn(w.disk, EncodeAll(w.accepted[..d]), Encode(w.accepted[d])))
  {
    StartInv(n, lsn, maxBytes, endLsn);
    RunKeepsInv(Start(n, lsn, maxBytes, endLsn), lsn, steps);
    hide Encode, EncodeAll, TotalBytes, Runs, After, Start, Torn;
  }

  lemma PrefixEncoding(es: seq<Entry>, k: nat, now: seq<Byte>)
    requires k <= |es|
    requires now == EncodeAll(es[..k]) || (k < |es| && Torn(now, EncodeAll(es[..k]), Encode(es[k])))
    ensures |now| <= |EncodeAll(es)| && now == EncodeAll(es)[..|now|]
    ensures |EncodeAll(es[..k])| <= |now|
    ensures k < |es| ==> |now| < |EncodeAll(es[..k + 1])|
  {
    hide Encode;
    assert es == es[..k] + es[k..];
    EncodeAllConcat(es[..k], es[k..]);
    if k < |es| {
      assert EncodeAll(es[k..]) == Encode(es[k]) + EncodeAll(es[k..][1..]);
      OneMoreEncoded(es, k);
    }
  }

  lemma {:induction false} WholeEntriesUnique(es: seq<Entry>, n: nat, k: nat)
    requires k <= |es| && Boundary(es, k) <= n && (k < |es| ==> n < Boundary(es, k + 1))
    ensures WholeEntries(es, n) == k
  {
    hide Encode;
    var j := WholeEntries(es, n);
    if j < k {
      BoundaryMonotone(es, j + 1, k);
    } else if k < j {
      BoundaryMonotone(es, k + 1, j);
    }
  }

  lemma BoundaryMonotone(es: seq<Entry>, j: nat, k: nat)
    requires j <= k <= |es|
    ensures Boundary(es, j) <= Boundary(es, k)
  {
    assert es[..k] == es[..j] + es[j..k];
    EncodeAllConcat(es[..j], es[j..k]);
  }

  /** A crash at any moment of any interleaving, also in the middle of a failed write: reading the file
      back from the first LSN hands over exactly the accepted entries up to flushed_lsn, in order, and the
      one being dropped if its write has returned.  The read fails exactly when a torn record follows whose
      header is whole. */
  lemma RecoveryAfterAnyRun(n: nat, lsn: Int64, maxBytes: nat, endLsn: Int64, steps: seq<Step>, cb: Callback)
    requires maxBytes > 0 && Runs(Start(n, lsn, maxBytes, endLsn), steps)
    requires forall d :: cb(d) == SUCCESS
    ensures var w := After(Start(n, lsn, maxBytes, endLsn), steps);
            var k := w.buffer.flushedLsn - lsn + if w.flusher.Wrote? then 1 else 0;
            && 0 <= k <= |w.accepted|
            && Iterate(w.disk, lsn, HeadSize, cb) ==
               Delivery(if HeaderTorn(w, k) then IOERR_READ else SUCCESS, w.accepted[..k])
  {
    hide Encode, Iterate, Runs, Start, After;
    StartInv(n, lsn, maxBytes, endLsn);
    RunKeepsInv(Start(n, lsn, maxBytes, endLsn), lsn, steps);
    var w := After(Start(n, lsn, maxBytes, endLsn), steps);
    hide Durable, BytesCounted, OneHolder, EncodeAll, WholeEntries, AllSized, Boundary;
    var es, k, size := w.accepted, OnDisk(w), |w.disk|;
    PrefixAgain(w, k);
    RecoveredPrefix(es, k, size, cb, lsn);
  }

  /** At least the header of a torn record is on disk. */
  predicate HeaderTorn(w: World, k: nat)
    requires k <= |w.accepted|
  {
    w.flusher.Dead? && |w.disk| >= Boundary(w.accepted, k) + HEAD_SIZE
  }

  /** Reading a log cut between the boundaries of entries k and k + 1. */
  lemma RecoveredPrefix(es: seq<Entry>, k: nat, size: nat, cb: Callback, lsn: Int64)
    requires AllSized(es) && size <= |EncodeAll(es)| && (forall e <- es :: e.Lsn() >= lsn)
    requires k <= |es| && Boundary(es, k) <= size && (k < |es| ==> size < Boundary(es, k + 1))
    requires forall d :: cb(d) == SUCCESS
    ensures Iterate(EncodeAll(es)[..size], lsn, HeadSize, cb) ==
            Delivery(if k < |es| && size >= Boundary(es, k) + HEAD_SIZE then IOERR_READ else SUCCESS, es[..k])
  {
    hide Encode, Iterate, EncodeAll, AllSized;
    WholeEntriesUnique(es, size, k);
    CrashRecovery(es, size, cb, lsn, HeadSize);
    ConsumeAll(es[..k], cb, []);
    assert [] + es[..k] == es[..k];
  }

  lemma PrefixAgain(w: World, k: nat)
    requires Durable(w) && k == OnDisk(w)
    ensures |w.disk| <= |EncodeAll(w.accepted)| && w.disk == EncodeAll(w.accepted)[..|w.disk|]
    ensures Boundary(w.accepted, k) <= |w.disk|
    ensures k < |w.accepted| ==> |w.disk| < Boundary(w.accepted, k + 1)
    ensures !w.flusher.Dead? ==> |w.disk| == Boundary(w.accepted, k)
  {
    hide Encode;
    if k < |w.accepted| {
      OneMoreEncoded(w.accepted, k);
    }
    PrefixEncoding(w.accepted, k, w.disk);
  }

  lemma {:induction false} ConsumeAll(es: seq<Entry>, cb: Callback, sofar: seq<Entry>)
    requires forall d :: cb(d) == SUCCESS
    ensures Consume(es, cb, sofar) == Delivery(SUCCESS, sofar + es)
    decreases |es|
  {
    if es == [] {
      assert sofar + es == sofar;
    } else {
      ConsumeAll(es[1..], cb, sofar + [es[0]]);
      assert sofar + [es[0]] + es[1..] == sofar + es;
    }
  }

  // ---------- The calls of LogBuffer are these steps ----------

  /** append's locked part is Enqueue followed by Count. */
  lemma AppendIsTwoSteps(w: World, t: nat, moduleId: Int32, data: seq<Byte>, lsnIn: Int64)
    requires Enabled(w, Enqueue(t, moduleId, data))
    ensures var v := Do(w, Enqueue(t, moduleId, data));
            && Enabled(v, Count(t))
            && Do(v, Count(t)) ==
               w.(buffer := w.buffer.Push(MakeEntry(lsnIn, moduleId, data)), threads := w.threads[t := Idle],
                  accepted := w.accepted + [MakeEntry(w.buffer.currentLsn + 1, moduleId, data)])
  {
  }

  /** The loop body of flush_batch is WriteFront followed by DropFront. */
  lemma FlushFrontIsTwoSteps(w: World)
    requires Enabled(w, WriteFront)
    ensures var v := Do(w, WriteFront);
            && Enabled(v, DropFront)
            && Do(v, DropFront) ==
               w.(buffer := w.buffer.Pop(), disk := w.disk + Encode(w.buffer.entries[0]),
                  flusher := Holding(w.flusher.left - 1))
  {
  }

  /** A thread passes the check exactly while the counter is below the limit.  Past it, it either queues a
      payload that `init` accepts or gives up on one that it refuses. */
  lemma ThreadSteps(w: World, t: nat, moduleId: Int32, data: seq<Byte>)
    requires t < |w.threads|
    ensures Enabled(w, Pass(t)) <==> w.threads[t].Idle? && w.buffer.currentBytes < w.maxBytes
    ensures |data| < TWO_31 && w.threads[t].Passed? ==> (Enabled(w, Refuse(t, data)) <==> !Accepts(data))
    ensures Enabled(w, Refuse(t, data)) ==> !Accepts(data)
    ensures |data| < TWO_31 && w.threads[t].Passed? && w.LockFree() && w.buffer.currentLsn < MAX_LSN ==>
              (Enabled(w, Enqueue(t, moduleId, data)) <==> Accepts(data))
    ensures Enabled(w, Pass(t)) ==> Do(w, Pass(t)) == w.(threads := w.threads[t := Passed])
    ensures Enabled(w, Refuse(t, data)) ==> Do(w, Refuse(t, data)) == w.(threads := w.threads[t := Idle])
  {
    AcceptedIsSizedExactly(0, moduleId, data);
  }

  // ---------- The bound is reached ----------

  function Largest(): seq<Byte> {
    seq(MAX_PAYLOAD_SIZE, _ => 0)
  }

  /** Threads from..n pass the check one after the other. */
  lemma {:induction false} AllPass(w: World, from: nat) returns (steps: seq<Step>)
    requires from <= |w.threads| && w.buffer.currentBytes < w.maxBytes && w.flusher.Resting?
    requires forall t :: 0 <= t < |w.threads| ==> w.threads[t] == if t < from then Passed else Idle
    ensures Runs(w, steps)
    ensures After(w, steps) == w.(threads := seq(|w.threads|, _ => Passed))
    decreases |w.threads| - from
  {
    if from == |w.threads| {
      assert w.threads == seq(|w.threads|, _ => Passed);
      steps := [];
    } else {
      var v := Do(w, Pass(from));
      var rest := AllPass(v, from + 1);
      steps := [Pass(from)] + rest;
      assert steps[1..] == rest;
    }
  }

  /** Threads from..n append a maximal entry each. */
  lemma {:induction false} AllAppend(w: World, from: nat) returns (steps: seq<Step>)
    requires from <= |w.threads| && w.flusher.Resting?
    requires forall t :: 0 <= t < |w.threads| ==> w.threads[t] == if t < from then Idle else Passed
    requires w.buffer.currentLsn + |w.threads| - from <= MAX_LSN
    ensures Runs(w, steps)
    ensures After(w, steps).buffer.currentBytes == w.buffer.currentBytes + (|w.threads| - from) * MAX_SIZE
    decreases |w.threads| - from
  {
    if from == |w.threads| {
      steps := [];
    } else {
      var first := Enqueue(from, 0, Largest());
      var v := Do(w, first);
      assert MakeEntry(0, 0, Largest()).PayloadSize() == MAX_PAYLOAD_SIZE;
      var u := Do(v, Count(from));
      var rest := AllAppend(u, from + 1);
      steps := [first] + ([Count(from)] + rest);
      assert steps[1..] == [Count(from)] + rest && steps[1..][1..] == rest;
      assert (|w.threads| - from) * MAX_SIZE == MAX_SIZE + (|w.threads| - from - 1) * MAX_SIZE;
    }
  }

  lemma {:induction false} RunsConcat(w: World, a: seq<Step>, b: seq<Step>)
    requires Runs(w, a) && Runs(After(w, a), b)
    ensures Runs(w, a + b) && After(w, a + b) == After(After(w, a), b)
    decreases |a|
  {
    if a == [] {
      assert a + b == b;
    } else {
      assert (a + b)[1..] == a[1..] + b;
      RunsConcat(Do(w, a[0]), a[1..], b);
    }
  }

  /** One append by an idle thread 0 while nobody else is at work. */
  lemma OneAppend(w: World, size: nat) returns (steps: seq<Step>)
    requires |w.threads| > 0 && w.flusher.Resting? && w.buffer.currentBytes < w.maxBytes
    requires forall t :: 0 <= t < |w.threads| ==> w.threads[t].Idle?
    requires HEAD_SIZE <= size <= MAX_SIZE && w.buffer.currentLsn < MAX_LSN
    ensures Runs(w, steps)
    ensures var v := After(w, steps);
            && v.threads == w.threads && v.flusher.Resting? && v.maxBytes == w.maxBytes
            && v.buffer.currentBytes == w.buffer.currentBytes + size && v.buffer.currentLsn == w.buffer.currentLsn + 1
  {
    var data: seq<Byte> := seq(size - HEAD_SIZE, _ => 0);
    var enqueue := Enqueue(0, 0, data);
    var u := Do(w, Pass(0));
    var v := Do(u, enqueue);
    assert MakeEntry(u.buffer.currentLsn + 1, 0, data).TotalSize() == size;
    assert Do(v, Count(0)).threads == w.threads;
    hide Enabled, Do;
    OneStep(w, Pass(0));
    OneStep(u, enqueue);
    OneStep(v, Count(0));
    RunsConcat(u, [enqueue], [Count(0)]);
    RunsConcat(w, [Pass(0)], [enqueue] + [Count(0)]);
    steps := [Pass(0)] + ([enqueue] + [Count(0)]);
  }

  lemma OneStep(w: World, s: Step)
    requires Enabled(w, s)
    ensures Runs(w, [s]) && After(w, [s]) == Do(w, s)
  {
    assert [s][1..] == [];
    assert Runs(Do(w, s), []) && After(Do(w, s), []) == Do(w, s);
  }

  /** Appends that fill the buffer up by r bytes. */
  lemma {:induction false} FillUp(w: World, r: nat) returns (steps: seq<Step>)
    requires |w.threads| > 0 && w.flusher.Resting? && w.buffer.currentBytes + r == w.maxBytes - 1
    requires forall t :: 0 <= t < |w.threads| ==> w.threads[t].Idle?
    requires (r == 0 || r >= HEAD_SIZE) && w.buffer.currentLsn + r <= MAX_LSN
    ensures Runs(w, steps)
    ensures var v := After(w, steps);
            && v.threads == w.threads && v.flusher.Resting? && v.maxBytes == w.maxBytes
            && v.buffer.currentBytes == w.maxBytes - 1 && v.buffer.currentLsn <= w.buffer.currentLsn + r
    decreases r
  {
    if r == 0 {
      steps := [];
    } else {
      var size := if r >= 2 * HEAD_SIZE then HEAD_SIZE else r;
      var first := OneAppend(w, size);
      var rest := FillUp(After(w, first), r - size);
      RunsConcat(w, first, rest);
      steps := first + rest;
    }
  }

  /** The entry of a thread between queueing and counting is the newest in the queue. */
  ghost predicate QueuedIsLast(w: World) {
    forall t :: 0 <= t < |w.threads| && w.threads[t].Queued? ==>
      w.buffer.entries != [] && w.threads[t].size == w.buffer.entries[|w.buffer.entries| - 1].TotalSize()
  }

  lemma StepKeepsLast(w: World, base: Int64, s: Step)
    requires Inv(w, base) && QueuedIsLast(w) && Enabled(w, s)
    ensures QueuedIsLast(Do(w, s))
  {
    hide Encode, EncodeAll, LsnOrder, Durable, BytesCounted;
  }

  lemma {:induction false} CountedBytes(threads: seq<Thread>, t: nat)
    requires t < |threads| && threads[t].Queued?
    requires forall u :: 0 <= u < |threads| && u != t ==> !threads[u].Queued?
    ensures Uncounted(threads) == threads[t].size
    decreases |threads|
  {
    if t == 0 {
      NothingUncounted(threads[1..]);
    } else {
      CountedBytes(threads[1..], t - 1);
    }
  }

  /** The counter is zero or at least one head: it counts whole entries only. */
  lemma CountsWholeEntries(w: World, base: Int64)
    requires Inv(w, base) && QueuedIsLast(w)
    ensures w.buffer.currentBytes == 0 || w.buffer.currentBytes >= HEAD_SIZE
  {
    var es := w.buffer.entries;
    if t :| 0 <= t < |w.threads| && w.threads[t].Queued? {
      CountedBytes(w.threads, t);
      var front, last := es[..|es| - 1], es[|es| - 1];
      assert es == front + [last];
      TotalBytesConcat(front, [last]);
      assert TotalBytes([last]) == last.TotalSize() + TotalBytes([]);
      TotalBytesCovers(front);
    } else {
      NothingUncounted(w.threads);
      TotalBytesCovers(es);
    }
  }

  /** While the limit is no more than one head, a run is also a run under a limit of one byte. */
  lemma {:induction false} SmallLimitRuns(w: World, base: Int64, steps: seq<Step>)
    requires Inv(w, base) && QueuedIsLast(w) && 0 < w.maxBytes <= HEAD_SIZE && Runs(w, steps)
    requires Inv(w.(maxBytes := 1), base)
    ensures Runs(w.(maxBytes := 1), steps)
    ensures After(w.(maxBytes := 1), steps) == After(w, steps).(maxBytes := 1)
    decreases |steps|
  {
    if steps != [] {
      var v := w.(maxBytes := 1);
      CountsWholeEntries(w, base);
      StepKeepsInv(w, base, steps[0]);
      StepKeepsLast(w, base, steps[0]);
      SmallStep(w, steps[0]);
      StepKeepsInv(v, base, steps[0]);
      hide Inv, QueuedIsLast, Enabled, Do;
      SmallLimitRuns(Do(w, steps[0]), base, steps[1..]);
    }
  }

  lemma SmallStep(w: World, s: Step)
    requires Enabled(w, s) && 0 < w.maxBytes <= HEAD_SIZE
    requires w.buffer.currentBytes == 0 || w.buffer.currentBytes >= HEAD_SIZE
    ensures Enabled(w.(maxBytes := 1), s) && Do(w.(maxBytes := 1), s) == Do(w, s).(maxBytes := 1)
    ensures Do(w, s).maxBytes == w.maxBytes
  {
    hide Encode;
  }

  /** The run reaches the bound of `BoundedBytes`. */
  ghost predicate Reaches(n: nat, lsn: Int64, maxBytes: nat, endLsn: Int64, steps: seq<Step>) {
    && Runs(Start(n, lsn, maxBytes, endLsn), steps)
    && After(Start(n, lsn, maxBytes, endLsn), steps).buffer.currentBytes == maxBytes - 1 + n * MAX_SIZE
  }

  lemma BoundReached(n: nat, lsn: Int64, maxBytes: nat, endLsn: Int64) returns (steps: seq<Step>)
    requires n > 0 && (maxBytes == 1 || maxBytes > HEAD_SIZE) && lsn + maxBytes + n <= MAX_LSN
    ensures Reaches(n, lsn, maxBytes, endLsn, steps)
  {
    var w := Start(n, lsn, maxBytes, endLsn);
    var fill := FillUp(w, maxBytes - 1);
    var full := After(w, fill);
    var a := AllPass(full, 0);
    var b := AllAppend(After(full, a), 0);
    RunsConcat(full, a, b);
    RunsConcat(w, fill, a + b);
    steps := fill + (a + b);
  }

  lemma BoundNotReached(n: nat, lsn: Int64, maxBytes: nat, endLsn: Int64, steps: seq<Step>)
    requires n > 0 && 1 < maxBytes <= HEAD_SIZE
    ensures !Reaches(n, lsn, maxBytes, endLsn, steps)
  {
    if Reaches(n, lsn, maxBytes, endLsn, steps) {
      StartInv(n, lsn, maxBytes, endLsn);
      StartInv(n, lsn, 1, endLsn);
      assert Start(n, lsn, maxBytes, endLsn).(maxBytes := 1) == Start(n, lsn, 1, endLsn);
      SmallLimitRuns(Start(n, lsn, maxBytes, endLsn), lsn, steps);
      BoundedBytes(n, lsn, 1, endLsn, steps);
      assert false;
    }
  }

  /** The bound of `BoundedBytes` is reached by some run, for every number of threads, exactly when the
      limit less one byte can be filled with whole entries: it is zero or at least one head. */
  lemma BoundIsAttainedExactly(n: nat, lsn: Int64, maxBytes: nat, endLsn: Int64)
    requires n > 0 && maxBytes > 0 && lsn + maxBytes + n <= MAX_LSN
    ensures (exists steps :: Reaches(n, lsn, maxBytes, endLsn, steps)) <==> maxBytes == 1 || maxBytes > HEAD_SIZE
  {
    hide Reaches;
    if maxBytes == 1 || maxBytes > HEAD_SIZE {
      var steps := BoundReached(n, lsn, maxBytes, endLsn);
    } else {
      forall steps ensures !Reaches(n, lsn, maxBytes, endLsn, steps) {
        BoundNotReached(n, lsn, maxBytes, endLsn, steps);
      }
    }
  }
}
