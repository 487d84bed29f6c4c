/** LogBuffer of src/dimserver/storage/clog/log_buffer.cpp, one call at a time.

    The calls run under the buffer's mutex; the unlocked back-pressure loop in front of an append has no
    effect on the state and is part of `WalProtocol`, where the threads are interleaved.
 */
module LogBuffer {
  import opened Bytes
  import opened ReturnCode
  import opened Io
  import opened LogEntry
  import opened LogFormat
  import opened LogFile

  const MAX_LSN: int := TWO_63 - 1

  /** The value of the buffer. */
  datatype Buffer = Buffer(entries: seq<Entry>, currentBytes: int, currentLsn: Int64, flushedLsn: Int64)
  {
    /** Queued LSNs follow the flushed one without a gap and the byte count is theirs. */
    ghost predicate Accounted() {
      && (forall i :: 0 <= i < |entries| ==> entries[i].Lsn() == flushedLsn + 1 + i)
      && currentLsn == flushedLsn + |entries|
      && currentBytes == TotalBytes(entries)
      && AllSized(entries)
    }

    function Push(e: Entry): Buffer
      requires currentLsn < MAX_LSN
    {
      Buffer(entries + [e.WithLsn(currentLsn + 1)], currentBytes + e.TotalSize(), currentLsn + 1, flushedLsn)
    }

    function Pop(): Buffer
      requires entries != []
    {
      Buffer(entries[1..], currentBytes - entries[0].TotalSize(), currentLsn, entries[0].Lsn())
    }

    function Drain(n: nat): Buffer
      requires n <= |entries|
      decreases n
    {
      if n == 0 then this else Pop().Drain(n - 1)
    }
  }

  function TotalBytes(es: seq<Entry>): int {
    if es == [] then 0 else es[0].TotalSize() + TotalBytes(es[1..])
  }

  lemma {:induction false} TotalBytesConcat(a: seq<Entry>, b: seq<Entry>)
    ensures TotalBytes(a + b) == TotalBytes(a) + TotalBytes(b)
  {
    if a == [] {
      assert a + b == b;
    } else {
      assert (a + b)[1..] == a[1..] + b;
      TotalBytesConcat(a[1..], b);
    }
  }

  /** The byte count of sized entries never falls below their heads, so the counter cannot underflow. */
  lemma {:induction false} TotalBytesCovers(es: seq<Entry>)
    requires AllSized(es)
    ensures HEAD_SIZE * |es| <= TotalBytes(es) <= MAX_SIZE * |es|
    ensures TotalBytes(es) == |EncodeAll(es)|
  {
    if es != [] {
      assert es[0].Sized();
      TotalBytesCovers(es[1..]);
    }
  }

  lemma PushKeepsAccounts(b: Buffer, e: Entry)
    requires b.Accounted() && b.currentLsn < MAX_LSN && e.Sized()
    ensures b.Push(e).Accounted()
  {
    var next := e.WithLsn(b.currentLsn + 1);
    TotalBytesConcat(b.entries, [next]);
    assert TotalBytes([next]) == next.TotalSize() + TotalBytes([]);
  }

  lemma PopKeepsAccounts(b: Buffer)
    requires b.Accounted() && b.entries != []
    ensures b.Pop().Accounted()
    ensures b.Pop().flushedLsn == b.flushedLsn + 1 && 0 <= b.Pop().currentBytes < b.currentBytes
  {
    assert b.entries[0].Sized();
    TotalBytesCovers(b.entries[1..]);
  }

  lemma {:induction false} DrainKeepsAccounts(b: Buffer, n: nat)
    requires b.Accounted() && n <= |b.entries|
    ensures b.Drain(n).Accounted()
    ensures b.Drain(n).entries == b.entries[n..] && b.Drain(n).flushedLsn == b.flushedLsn + n
    ensures b.Drain(n).currentLsn == b.currentLsn
    decreases n
  {
    if n > 0 {
      PopKeepsAccounts(b);
      DrainKeepsAccounts(b.Pop(), n - 1);
    }
  }

  lemma {:induction false} DrainOneMore(b: Buffer, n: nat)
    requires n < |b.entries|
    ensures b.Drain(n).entries == b.entries[n..]
    ensures b.Drain(n + 1) == b.Drain(n).Pop()
    decreases n
  {
    if n > 0 {
      DrainOneMore(b.Pop(), n - 1);
    }
  }

  /** `now` is `before` with its n oldest entries gone, and is in good order. */
  ghost predicate Drained(before: Buffer, now: Buffer, n: nat) {
    && n <= |before.entries| && now == before.Drain(n)
    && now.entries == before.entries[n..] && now.Accounted()
  }

  lemma DrainedStart(b: Buffer)
    requires b.Accounted()
    ensures Drained(b, b, 0) && EncodeAll(b.entries[..0]) == []
  {
  }

  lemma DrainedFacts(before: Buffer, now: Buffer, n: nat)
    requires Drained(before, now, n)
    ensures n <= |before.entries| && now.entries == before.entries[n..] && now.Accounted()
  {
  }

  lemma DrainStep(before: Buffer, now: Buffer, n: nat)
    requires Drained(before, now, n) && now.entries != []
    ensures Drained(before, now.Pop(), n + 1) && now.entries[0] == before.entries[n]
  {
    DrainOneMore(before, n);
    PopKeepsAccounts(now);
  }

  class LogBuffer {
    var entries: seq<Entry>
    var currentBytes: int
    var currentLsn: Int64
    var flushedLsn: Int64
    var maxBytes: nat

    function State(): Buffer
      reads this
    {
      Buffer(entries, currentBytes, currentLsn, flushedLsn)
    }

    ghost predicate Valid()
      reads this
    {
      State().Accounted()
    }

    constructor ()
      ensures Valid() && State() == Buffer([], 0, 0, 0) && maxBytes == 16 * 1024 * 1024
    {
      entries, currentBytes, currentLsn, flushedLsn := [], 0, 0, 0;
      maxBytes := 16 * 1024 * 1024;
    }

    method Init(lsn: Int64, bytes: Int32) returns (rc: RC)
      modifies this
      ensures rc == SUCCESS
      ensures State() == old(State()).(currentLsn := lsn, flushedLsn := lsn)
      ensures maxBytes == if bytes > 0 then bytes else old(maxBytes)
      ensures old(Valid()) && old(entries) == [] ==> Valid()
    {
      currentLsn, flushedLsn := lsn, lsn;
      if bytes > 0 {
        maxBytes := bytes;
      }
      rc := SUCCESS;
    }

    /** append(LogEntry&&), past the back-pressure loop. */
    method AppendEntry(entry: LogEntry) returns (rc: RC)
      requires currentLsn < MAX_LSN
      modifies this, entry
      ensures rc == SUCCESS && maxBytes == old(maxBytes)
      ensures State() == old(State()).Push(old(entry.Value())) && entry.Value() == NO_ENTRY
      ensures old(Valid() && entry.Value().Sized()) ==> Valid()
    {
      if Valid() && entry.Value().Sized() {
        PushKeepsAccounts(State(), entry.Value());
      }
      currentLsn := currentLsn + 1;
      entry.SetLsn(currentLsn);
      var moved := entry.Take();
      entries := entries + [moved];
      currentBytes := currentBytes + entries[|entries| - 1].TotalSize();
      rc := SUCCESS;
    }

    /** append(lsn, module, data), past the back-pressure loop: a payload that `init` refuses takes no
        LSN.  From 2 GiB on a payload that is too large may be accepted, and the accounts are then off. */
    method Append(lsnIn: Int64, moduleId: Int32, data: seq<Byte>) returns (rc: RC, lsn: Int64)
      requires currentLsn < MAX_LSN
      modifies this
      ensures maxBytes == old(maxBytes)
      ensures |data| < TWO_31 ==> (Accepts(data) <==> |data| <= MAX_PAYLOAD_SIZE)
      ensures !Accepts(data) ==> rc == MESSAGE_INVALID && lsn == lsnIn && State() == old(State())
      ensures Accepts(data) ==> rc == SUCCESS && lsn == old(currentLsn) + 1
      ensures Accepts(data) ==> State() == old(State()).Push(MakeEntry(lsnIn, moduleId, data))
      ensures old(Valid()) && (|data| <= MAX_PAYLOAD_SIZE || !Accepts(data)) ==> Valid()
    {
      lsn := lsnIn;
      AcceptedIsSizedExactly(lsnIn, moduleId, data);
      var entry := new LogEntry();
      rc := entry.Init(lsn, moduleId, data);
      if rc.IsFail() {
        return rc, lsn;
      }
      if Valid() && |data| <= MAX_PAYLOAD_SIZE {
        PushKeepsAccounts(State(), entry.Value());
      }
      currentLsn := currentLsn + 1;
      lsn := currentLsn;
      entry.SetLsn(lsn);
      var moved := entry.Take();
      entries := entries + [moved];
      currentBytes := currentBytes + entries[|entries| - 1].TotalSize();
      rc := SUCCESS;
    }

    /** The loop body of flush_batch: the oldest entry is written, and dropped once it is. */
    method FlushFront(kernel: Kernel, writer: LogFileWriter) returns (rc: RC)
      requires Valid() && entries != []
      modifies this, kernel, writer`lastLsn, writer.file`bytes
      ensures maxBytes == old(maxBytes)
      ensures State() == if rc == SUCCESS then old(State()).Pop() else old(State())
      ensures Recorded(rc, old(writer.file.bytes), old(entries)[0], writer.file.bytes)
      ensures rc == FILE_NOT_OPEN <==> writer.fd < 0
      ensures rc == FILE_FULL <==> writer.fd >= 0 && old(entries)[0].Lsn() >= writer.endLsn
    {
      hide Encode, Torn;
      assert entries[0].Sized();
      rc := writer.Write(kernel, entries[0]);
      if rc.IsFail() {
        return rc;
      }
      var entry := entries[0];
      currentBytes := currentBytes - entry.TotalSize();
      flushedLsn := entry.Lsn();
      entries := entries[1..];
    }

    /** Writes the oldest entries out one by one and drops each once it is written.  `written` entries
        have reached the file, in order; the rest are still queued, whatever stopped the batch. */
    method FlushBatch(kernel: Kernel, writer: LogFileWriter, batchSize: nat) returns (rc: RC, ghost written: nat)
      requires Valid()
      modifies this, kernel, writer`lastLsn, writer.file`bytes
      ensures maxBytes == old(maxBytes)
      ensures Drained(old(State()), State(), written)
      ensures rc == SUCCESS <==> written == if batchSize < |old(entries)| then batchSize else |old(entries)|
      ensures rc == FILE_NOT_OPEN ==> writer.fd < 0 && written == 0
      ensures rc == FILE_FULL ==> entries != [] && entries[0].Lsn() >= writer.endLsn
      ensures rc == SUCCESS ==> writer.file.bytes == old(writer.file.bytes) + EncodeAll(old(entries)[..written])
      ensures rc != SUCCESS ==> entries != []
      ensures rc == IOERR_WRITE ==>
                Torn(writer.file.bytes, old(writer.file.bytes) + EncodeAll(old(entries)[..written]), Encode(entries[0]))
      ensures rc != SUCCESS && rc != IOERR_WRITE ==>
                writer.file.bytes == old(writer.file.bytes) + EncodeAll(old(entries)[..written])
    {
      hide Encode, Torn, Drained, EncodeAll;
      ghost var before, disk := State(), writer.file.bytes;
      DrainedStart(before);
      if entries == [] {
        return SUCCESS, 0;
      }
      var batch := Min(batchSize, |entries|);
      var done := 0;
      while done < batch && entries != []
        invariant 0 <= done <= batch
        invariant Drained(before, State(), done)
        invariant maxBytes == old(maxBytes)
        invariant writer.file.bytes == disk + EncodeAll(before.entries[..done])
        invariant done > 0 ==> writer.fd >= 0
      {
        DrainedFacts(before, State(), done);
        DrainStep(before, State(), done);
        OneMoreEncoded(before.entries, done);
        rc := FlushFront(kernel, writer);
        if rc.IsFail() {
          return rc, done;
        }
        done := done + 1;
      }
      DrainedFacts(before, State(), done);
      return SUCCESS, done;
    }

    method Flush(kernel: Kernel, writer: LogFileWriter) returns (rc: RC, ghost written: nat)
      requires Valid()
      modifies this, kernel, writer`lastLsn, writer.file`bytes
      ensures Drained(old(State()), State(), written)
      ensures rc == SUCCESS <==> entries == []
      ensures rc == SUCCESS ==> writer.file.bytes == old(writer.file.bytes) + EncodeAll(old(entries))
    {
      rc, written := FlushBatch(kernel, writer, |entries|);
      assert old(entries)[..|old(entries)|] == old(entries);
    }
  }

  lemma OneMoreEncoded(es: seq<Entry>, k: nat)
    requires k < |es|
    ensures EncodeAll(es[..k + 1]) == EncodeAll(es[..k]) + Encode(es[k])
  {
    assert es[..k + 1] == es[..k] + [es[k]];
    EncodeAllConcat(es[..k], [es[k]]);
    assert EncodeAll([es[k]]) == Encode(es[k]) + EncodeAll([]);
  }
}
