/** The byte format of a log file and what reading one back yields.

    `Encode` is what LogFileWriter::write appends; `Seek` and `Deliver` are the go_to and iterate loops
    of src/dimserver/storage/clog/log_file.cpp as functions of the file's bytes.  The reader class in
    `LogFile` is proved to compute them.
 */
module LogFormat {
  import opened Bytes
  import opened ReturnCode
  import opened LogEntry

  // ---------- Writing ----------

  function EncodeHeader(h: Header): (b: seq<Byte>)
    ensures |b| == HEAD_SIZE
  {
    EncodeInt64(h.lsn) + EncodeInt32(h.dataSize) + EncodeInt32(h.moduleId)
  }

  function DecodeHeader(b: seq<Byte>): Header
    requires |b| == HEAD_SIZE
  {
    Header(DecodeInt64(b[..8]), DecodeInt32(b[8..12]), DecodeInt32(b[12..]))
  }

  lemma HeaderRoundTrip(h: Header)
    ensures DecodeHeader(EncodeHeader(h)) == h
  {
    var b := EncodeHeader(h);
    assert b[..8] == EncodeInt64(h.lsn) && b[8..12] == EncodeInt32(h.dataSize) && b[12..] == EncodeInt32(h.moduleId);
    IntRoundTrips(h.dataSize, h.lsn);
    IntRoundTrips(h.moduleId, h.lsn);
  }

  lemma HeaderInverse(b: seq<Byte>)
    requires |b| == HEAD_SIZE
    ensures EncodeHeader(DecodeHeader(b)) == b
  {
    IntInverses(b[8..12], b[..8]);
    IntInverses(b[12..], b[..8]);
    assert b == b[..8] + b[8..12] + b[12..];
  }

  function Encode(e: Entry): (b: seq<Byte>)
    ensures |b| == HEAD_SIZE + |e.data|
  {
    EncodeHeader(e.header) + e.data
  }

  function EncodeAll(es: seq<Entry>): seq<Byte> {
    if es == [] then [] else Encode(es[0]) + EncodeAll(es[1..])
  }

  predicate AllSized(es: seq<Entry>) {
    forall e <- es :: e.Sized()
  }

  lemma {:induction false} EncodeAllConcat(a: seq<Entry>, b: seq<Entry>)
    ensures EncodeAll(a + b) == EncodeAll(a) + EncodeAll(b)
  {
    if a == [] {
      assert a + b == b;
    } else {
      assert (a + b)[1..] == a[1..] + b;
      EncodeAllConcat(a[1..], b);
    }
  }

  // ---------- Reading ----------

  predicate HeaderAt(file: seq<Byte>, pos: nat) {
    pos + HEAD_SIZE <= |file|
  }

  function HeaderOf(file: seq<Byte>, pos: nat): Header
    requires HeaderAt(file, pos)
  {
    DecodeHeader(file[pos..pos + HEAD_SIZE])
  }

  /** How far `go_to` moves on after a header: the source skips HEAD_SIZE bytes, its comment says the
      payload. */
  datatype Skip = HeadSize | Payload
  {
    function Length(h: Header): int {
      if HeadSize? then HEAD_SIZE else h.dataSize
    }
  }

  predicate ValidSize(h: Header) {
    0 <= h.dataSize <= MAX_PAYLOAD_SIZE
  }

  datatype Landing = Landing(rc: RC, pos: nat)

  /** The go_to loop from offset `pos`.  At the end of the file the offset is left at or past the end. */
  function Seek(file: seq<Byte>, pos: nat, lsn: Int64, skip: Skip): Landing
    decreases |file| - pos
  {
    if !HeaderAt(file, pos) then Landing(SUCCESS, if pos < |file| then |file| else pos)
    else
      var h := HeaderOf(file, pos);
      if h.lsn >= lsn then Landing(SUCCESS, pos)
      else if !ValidSize(h) then Landing(IOERR_READ, pos + HEAD_SIZE)
      else Seek(file, pos + HEAD_SIZE + skip.Length(h), lsn, skip)
  }

  /** A callback sees the entries delivered so far, the newest last, and returns a code. */
  type Callback = seq<Entry> -> RC

  datatype Delivery = Delivery(rc: RC, entries: seq<Entry>)

  /** The entry handed to the callback: `init`'s refusal is ignored, leaving a default entry. */
  function Rebuilt(h: Header, data: seq<Byte>): Entry {
    if Accepts(data) then MakeEntry(h.lsn, h.moduleId, data) else NO_ENTRY
  }

  /** The iterate loop from offset `pos`. */
  function Deliver(file: seq<Byte>, pos: nat, cb: Callback, sofar: seq<Entry>): Delivery
    decreases |file| - pos
  {
    if !HeaderAt(file, pos) then Delivery(SUCCESS, sofar)
    else
      var h := HeaderOf(file, pos);
      var body := pos + HEAD_SIZE;
      if h.dataSize < 0 then Delivery(THROWN, sofar)
      else if body + h.dataSize > |file| then Delivery(IOERR_READ, sofar)
      else
        var now := sofar + [Rebuilt(h, file[body..body + h.dataSize])];
        if cb(now).IsFail() then Delivery(cb(now), now)
        else Deliver(file, body + h.dataSize, cb, now)
  }

  lemma {:induction false} DeliverExtends(file: seq<Byte>, pos: nat, cb: Callback, sofar: seq<Entry>)
    ensures sofar <= Deliver(file, pos, cb, sofar).entries
    decreases |file| - pos
  {
    if HeaderAt(file, pos) {
      var h := HeaderOf(file, pos);
      var body := pos + HEAD_SIZE;
      if h.dataSize >= 0 && body + h.dataSize <= |file| {
        var now := sofar + [Rebuilt(h, file[body..body + h.dataSize])];
        if !cb(now).IsFail() {
          DeliverExtends(file, body + h.dataSize, cb, now);
        }
      }
    }
  }

  function Iterate(file: seq<Byte>, start: Int64, skip: Skip, cb: Callback): Delivery {
    var at := Seek(file, 0, start, skip);
    if at.rc.IsFail() then Delivery(at.rc, []) else Deliver(file, at.pos, cb, [])
  }

  /** The specification: hand over the entries in order until the callback fails. */
  function Consume(es: seq<Entry>, cb: Callback, sofar: seq<Entry>): Delivery
    decreases |es|
  {
    if es == [] then Delivery(SUCCESS, sofar)
    else
      var now := sofar + [es[0]];
      if cb(now).IsFail() then Delivery(cb(now), now) else Consume(es[1..], cb, now)
  }

  // ---------- One entry at an offset ----------

  lemma EntryAt(file: seq<Byte>, pos: nat, e: Entry)
    requires e.Sized()
    requires pos <= |file| && Encode(e) <= file[pos..]
    ensures HeaderAt(file, pos) && HeaderOf(file, pos) == e.header
    ensures pos + e.TotalSize() <= |file|
    ensures Rebuilt(e.header, file[pos + HEAD_SIZE..pos + e.TotalSize()]) == e
  {
    HeaderRoundTrip(e.header);
    assert file[pos..][..HEAD_SIZE] == Encode(e)[..HEAD_SIZE] == EncodeHeader(e.header);
    assert file[pos..pos + HEAD_SIZE] == file[pos..][..HEAD_SIZE];
    assert file[pos + HEAD_SIZE..pos + e.TotalSize()] == file[pos..][HEAD_SIZE..e.TotalSize()] == e.data;
    AcceptedIsSizedExactly(e.header.lsn, e.header.moduleId, e.data);
  }

  /** What recovery from a log cut after n bytes is to deliver: the whole entries, then success if the
      cut is at a boundary or inside a header, a read error if it is inside a payload. */
  function CutOutcome(es: seq<Entry>, n: nat, cb: Callback, sofar: seq<Entry>): Delivery
    decreases |es|
  {
    if es == [] || n < HEAD_SIZE then Delivery(SUCCESS, sofar)
    else if n < |Encode(es[0])| then Delivery(IOERR_READ, sofar)
    else
      var now := sofar + [es[0]];
      if cb(now).IsFail() then Delivery(cb(now), now)
      else CutOutcome(es[1..], n - |Encode(es[0])|, cb, now)
  }

  /** Past a whole entry, the rest of the file is the rest of the log. */
  lemma PastEntry(file: seq<Byte>, pos: nat, e: Entry, rest: seq<Byte>, n: nat)
    requires e.Sized()
    requires pos <= |file| && |Encode(e)| <= n <= |Encode(e)| + |rest|
    requires file[pos..] == (Encode(e) + rest)[..n]
    ensures Encode(e) <= file[pos..]
    ensures pos + e.TotalSize() <= |file| && file[pos + e.TotalSize()..] == rest[..n - |Encode(e)|]
  {
    assert file[pos..][|Encode(e)|..] == rest[..n - |Encode(e)|];
    assert file[pos..][..|Encode(e)|] == Encode(e);
  }

  /** The cut falls inside the payload. */
  lemma CutPayload(file: seq<Byte>, pos: nat, e: Entry, rest: seq<Byte>, n: nat, cb: Callback, sofar: seq<Entry>)
    requires e.Sized()
    requires pos <= |file| && HEAD_SIZE <= n < |Encode(e)|
    requires file[pos..] == (Encode(e) + rest)[..n]
    ensures Deliver(file, pos, cb, sofar) == Delivery(IOERR_READ, sofar)
  {
    assert file[pos..pos + HEAD_SIZE] == file[pos..][..HEAD_SIZE] == EncodeHeader(e.header);
    HeaderRoundTrip(e.header);
  }

  /** Reading on from `pos`, where the file holds the first n bytes of the encoded entries. */
  lemma {:induction false} DeliverCut(file: seq<Byte>, pos: nat, es: seq<Entry>, n: nat, cb: Callback,
          sofar: seq<Entry>)
    requires AllSized(es) && n <= |EncodeAll(es)|
    requires pos <= |file| && file[pos..] == EncodeAll(es)[..n]
    ensures Deliver(file, pos, cb, sofar) == CutOutcome(es, n, cb, sofar)
    decreases |es|
  {
    hide Encode;
    if es != [] && n >= HEAD_SIZE {
      var e, rest := es[0], EncodeAll(es[1..]);
      assert e.Sized();
      if n < |Encode(e)| {
        CutPayload(file, pos, e, rest, n, cb, sofar);
      } else {
        PastEntry(file, pos, e, rest, n);
        EntryAt(file, pos, e);
        if !cb(sofar + [e]).IsFail() {
          DeliverCut(file, pos + e.TotalSize(), es[1..], n - |Encode(e)|, cb, sofar + [e]);
        }
      }
    }
  }

  // ---------- Crash recovery ----------

  /** The offset at which entry k begins. */
  function Boundary(es: seq<Entry>, k: nat): nat
    requires k <= |es|
  {
    |EncodeAll(es[..k])|
  }

  lemma BoundaryStep(es: seq<Entry>, k: nat)
    requires 0 < k <= |es|
    ensures Boundary(es, k) == |Encode(es[0])| + Boundary(es[1..], k - 1)
  {
    assert es[..k] == [es[0]] + es[1..][..k - 1];
  }

  /** How many entries lie whole within the first n bytes. */
  function WholeEntries(es: seq<Entry>, n: nat): (k: nat)
    ensures k <= |es| && Boundary(es, k) <= n
    ensures k < |es| ==> n < Boundary(es, k + 1)
    decreases |es|
  {
    if es == [] || n < |Encode(es[0])| then
      assert es != [] ==> es[..1] == [es[0]] && EncodeAll([es[0]]) == Encode(es[0]) + [];
      0
    else
      var k := 1 + WholeEntries(es[1..], n - |Encode(es[0])|);
      BoundaryStep(es, k);
      assert k < |es| ==> Boundary(es, k + 1) == |Encode(es[0])| + Boundary(es[1..], k) by {
        if k < |es| {
          BoundaryStep(es, k + 1);
        }
      }
      k
  }

  lemma {:induction false} CutOutcomeIsPrefix(es: seq<Entry>, n: nat, cb: Callback, sofar: seq<Entry>)
    ensures var k := WholeEntries(es, n);
            var front := Consume(es[..k], cb, sofar);
            CutOutcome(es, n, cb, sofar) ==
            if front.rc.IsFail() then front
            else Delivery(if k < |es| && n >= Boundary(es, k) + HEAD_SIZE then IOERR_READ else SUCCESS, sofar + es[..k])
    decreases |es|
  {
    hide Encode;
    var k := WholeEntries(es, n);
    if k == 0 {
      assert sofar + es[..0] == sofar;
      assert es != [] ==> |Encode(es[0])| >= HEAD_SIZE;
    } else {
      var now := sofar + [es[0]];
      assert es[..k][1..] == es[1..][..k - 1];
      if !cb(now).IsFail() {
        CutOutcomeIsPrefix(es[1..], n - |Encode(es[0])|, cb, now);
        assert now + es[1..][..k - 1] == sofar + es[..k];
        BoundaryStep(es, k);
      }
    }
  }

  /** A log cut at any byte: reading it from the start hands the callback exactly the entries that are
      whole before the cut, in order.  The read then succeeds if the cut is at an entry boundary or
      inside a header, and fails if it is inside, or right before, a non-empty payload. */
  lemma CrashRecovery(es: seq<Entry>, n: nat, cb: Callback, start: Int64, skip: Skip)
    requires AllSized(es) && n <= |EncodeAll(es)|
    requires forall e <- es :: e.Lsn() >= start
    ensures var k := WholeEntries(es, n);
            var front := Consume(es[..k], cb, []);
            Iterate(EncodeAll(es)[..n], start, skip, cb) ==
            if front.rc.IsFail() then front
            else Delivery(if k < |es| && n >= Boundary(es, k) + HEAD_SIZE then IOERR_READ else SUCCESS, es[..k])
  {
    var file := EncodeAll(es)[..n];
    if HeaderAt(file, 0) {
      var e := es[0];
      assert EncodeAll(es) == Encode(e) + EncodeAll(es[1..]);
      assert file[0..HEAD_SIZE] == EncodeAll(es)[..HEAD_SIZE] == EncodeHeader(e.header);
      HeaderRoundTrip(e.header);
      assert e.Lsn() >= start;
      assert Seek(file, 0, start, skip) == Landing(SUCCESS, 0);
    }
    assert file[0..] == file;
    DeliverCut(file, 0, es, n, cb, []);
    CutOutcomeIsPrefix(es, n, cb, []);
    assert [] + es[..WholeEntries(es, n)] == es[..WholeEntries(es, n)];
  }

  lemma WholeLog(file: seq<Byte>, pos: nat, es: seq<Entry>, cb: Callback, sofar: seq<Entry>)
    requires AllSized(es)
    requires pos <= |file| && file[pos..] == EncodeAll(es)
    ensures Deliver(file, pos, cb, sofar) == Consume(es, cb, sofar)
  {
    assert EncodeAll(es)[..|EncodeAll(es)|] == EncodeAll(es);
    DeliverCut(file, pos, es, |EncodeAll(es)|, cb, sofar);
    WholeOutcome(es, cb, sofar);
  }

  lemma {:induction false} WholeOutcome(es: seq<Entry>, cb: Callback, sofar: seq<Entry>)
    ensures CutOutcome(es, |EncodeAll(es)|, cb, sofar) == Consume(es, cb, sofar)
    decreases |es|
  {
    if es != [] {
      var now := sofar + [es[0]];
      if !cb(now).IsFail() {
        WholeOutcome(es[1..], cb, now);
      }
    }
  }

  // ---------- Starting in the middle ----------

  predicate Increasing(es: seq<Entry>) {
    forall i, j :: 0 <= i < j < |es| ==> es[i].Lsn() < es[j].Lsn()
  }

  /** The entries with an LSN of at least s, in order. */
  function From(es: seq<Entry>, s: Int64): seq<Entry> {
    if es == [] then []
    else if es[0].Lsn() >= s then [es[0]] + From(es[1..], s)
    else From(es[1..], s)
  }

  /** How many entries precede the first one with an LSN of at least s. */
  function Below(es: seq<Entry>, s: Int64): (k: nat)
    ensures k <= |es|
    ensures forall i :: 0 <= i < k ==> es[i].Lsn() < s
    ensures k < |es| ==> es[k].Lsn() >= s
  {
    if es == [] || es[0].Lsn() >= s then 0 else 1 + Below(es[1..], s)
  }

  lemma {:induction false} FromAll(es: seq<Entry>, s: Int64)
    requires forall e <- es :: e.Lsn() >= s
    ensures From(es, s) == es
  {
    if es != [] {
      FromAll(es[1..], s);
    }
  }

  lemma {:induction false} FromIsSuffix(es: seq<Entry>, s: Int64)
    requires Increasing(es)
    ensures From(es, s) == es[Below(es, s)..]
  {
    if es != [] {
      if es[0].Lsn() >= s {
        FromAll(es, s);
      } else {
        FromIsSuffix(es[1..], s);
      }
    }
  }

  /** One turn of the search on a whole entry. */
  lemma SeekEntry(file: seq<Byte>, pos: nat, e: Entry, rest: seq<Byte>, s: Int64, skip: Skip)
    requires e.Sized()
    requires pos <= |file| && file[pos..] == Encode(e) + rest
    ensures e.Lsn() >= s ==> Seek(file, pos, s, skip) == Landing(SUCCESS, pos)
    ensures e.Lsn() < s ==> Seek(file, pos, s, skip) == Seek(file, pos + HEAD_SIZE + skip.Length(e.header), s, skip)
    ensures pos + e.TotalSize() <= |file| && file[pos + e.TotalSize()..] == rest
  {
    var n := |Encode(e) + rest|;
    assert (Encode(e) + rest)[..n] == Encode(e) + rest && rest[..|rest|] == rest;
    PastEntry(file, pos, e, rest, n);
    EntryAt(file, pos, e);
  }

  lemma SplitAt(es: seq<Entry>, k: nat)
    requires k <= |es|
    ensures Boundary(es, k) <= |EncodeAll(es)|
    ensures EncodeAll(es)[Boundary(es, k)..] == EncodeAll(es[k..])
  {
    assert es == es[..k] + es[k..];
    EncodeAllConcat(es[..k], es[k..]);
  }

  lemma {:induction false} SeekByPayload(file: seq<Byte>, pos: nat, es: seq<Entry>, s: Int64)
    requires AllSized(es)
    requires pos <= |file| && file[pos..] == EncodeAll(es)
    ensures Seek(file, pos, s, Payload) == Landing(SUCCESS, pos + Boundary(es, Below(es, s)))
    decreases |es|
  {
    if es != [] {
      var e := es[0];
      assert e.Sized();
      SeekEntry(file, pos, e, EncodeAll(es[1..]), s, Payload);
      if e.Lsn() < s {
        var k := Below(es[1..], s);
        assert Below(es, s) == k + 1;
        SeekByPayload(file, pos + e.TotalSize(), es[1..], s);
        BoundaryStep(es, k + 1);
      } else {
        assert Below(es, s) == 0 && es[..0] == [];
      }
    } else {
      assert es[..0] == [] && Below(es, s) == 0;
    }
  }

  /** With the payload skipped, reading from s hands over exactly the entries with LSN >= s, in order,
      each once. */
  lemma ReplayFrom(es: seq<Entry>, s: Int64, cb: Callback)
    requires AllSized(es) && Increasing(es)
    ensures Iterate(EncodeAll(es), s, Payload, cb) == Consume(From(es, s), cb, [])
  {
    hide EncodeAll, AllSized, Increasing, Boundary, Below, Seek, Deliver, Consume, From;
    var k := Below(es, s);
    var file := EncodeAll(es);
    assert file[0..] == file;
    SeekByPayload(file, 0, es, s);
    SplitAt(es, k);
    SuffixSized(es, k);
    WholeLog(file, Boundary(es, k), es[k..], cb, []);
    FromIsSuffix(es, s);
  }

  lemma SuffixSized(es: seq<Entry>, k: nat)
    requires AllSized(es) && k <= |es|
    ensures AllSized(es[k..])
  {
  }

  // ---------- The literal skip of HEAD_SIZE ----------

  const STRIDE: nat := 32 // a header and HEAD_SIZE more

  /** A whole number of strides. */
  predicate OnStride(d: int) {
    d % 32 == 0
  }

  lemma StrideBack(d: int)
    ensures OnStride(d) <==> OnStride(d - 32)
  {
  }

  /** go_to has put the reader on offset `target`, or at the end when that is where `target` is. */
  predicate LandsOn(file: seq<Byte>, at: Landing, target: nat) {
    && at.rc == SUCCESS
    && (at.pos == target || (target == |file| <= at.pos))
  }

  /** The 16 bytes at `pos`, read as a header, send the search on. */
  predicate PassesOver(file: seq<Byte>, pos: nat, s: Int64) {
    HeaderAt(file, pos) ==> HeaderOf(file, pos).lsn < s && ValidSize(HeaderOf(file, pos))
  }

  /** The strided search meets the target: the target is on the stride or at the end of the file, and
      every strided offset before it reads as the header of a smaller LSN. */
  ghost predicate Strided(file: seq<Byte>, pos: nat, target: nat, s: Int64) {
    && (target == |file| || (pos <= target && OnStride(target - pos)))
    && forall q: nat :: pos <= q < target && OnStride(q - pos) ==> PassesOver(file, q, s)
  }

  lemma StridedStep(file: seq<Byte>, pos: nat, target: nat, s: Int64)
    requires pos < target && PassesOver(file, pos, s)
    ensures Strided(file, pos, target, s) <==> Strided(file, pos + STRIDE, target, s)
  {
    StrideBack(target - pos);
    if Strided(file, pos, target, s) {
      forall q: nat | pos + STRIDE <= q < target && OnStride(q - (pos + STRIDE)) ensures PassesOver(file, q, s) {
        StrideBack(q - pos);
      }
    }
    if Strided(file, pos + STRIDE, target, s) {
      forall q: nat | pos <= q < target && OnStride(q - pos) ensures PassesOver(file, q, s) {
        StrideBack(q - pos);
      }
    }
  }

  /** go_to as written, from any offset of any file: it lands on the target exactly when the target lies
      on its 32-byte stride. */
  lemma {:induction false} StridedSearch(file: seq<Byte>, pos: nat, target: nat, s: Int64)
    requires target <= |file|
    requires target < |file| ==> HeaderAt(file, target) && HeaderOf(file, target).lsn >= s
    ensures LandsOn(file, Seek(file, pos, s, HeadSize), target) <==> Strided(file, pos, target, s)
    decreases |file| - pos
  {
    if HeaderAt(file, pos) {
      var h := HeaderOf(file, pos);
      if h.lsn < s && ValidSize(h) {
        StridedSearch(file, pos + STRIDE, target, s);
        if pos < target {
          StridedStep(file, pos, target, s);
        }
      } else if pos < target {
        assert OnStride(pos - pos);
        assert !PassesOver(file, pos, s);
      }
    }
  }

  lemma TargetHeader(es: seq<Entry>, s: Int64)
    requires AllSized(es)
    ensures var file := EncodeAll(es);
            var target := Boundary(es, Below(es, s));
            target <= |file| && (target < |file| ==> HeaderAt(file, target) && HeaderOf(file, target).lsn >= s)
            && (Below(es, s) < |es| ==> target < |file|)
  {
    var k := Below(es, s);
    SplitAt(es, k);
    if k < |es| {
      assert EncodeAll(es[k..]) == Encode(es[k]) + EncodeAll(es[k..][1..]);
      EntryAt(EncodeAll(es), Boundary(es, k), es[k]);
    }
  }

  /** On a well-formed log, go_to as written stops at the first entry with LSN >= s if and only if that
      entry starts on its 32-byte stride and every strided offset before it reads as a smaller header. */
  lemma LiteralSeekExact(es: seq<Entry>, s: Int64)
    requires AllSized(es)
    ensures var target := Boundary(es, Below(es, s));
            LandsOn(EncodeAll(es), Seek(EncodeAll(es), 0, s, HeadSize), target) <==>
                Strided(EncodeAll(es), 0, target, s)
  {
    TargetHeader(es, s);
    StridedSearch(EncodeAll(es), 0, Boundary(es, Below(es, s)), s);
  }

  lemma {:induction false} SkippedOnStride(file: seq<Byte>, pos: nat, es: seq<Entry>, s: Int64)
    requires AllSized(es)
    requires pos <= |file| && file[pos..] == EncodeAll(es)
    requires forall i :: 0 <= i < Below(es, s) ==> |es[i].data| == HEAD_SIZE
    ensures Seek(file, pos, s, HeadSize) == Seek(file, pos, s, Payload)
    decreases |es|
  {
    if es != [] {
      var e := es[0];
      assert e.Sized();
      SeekEntry(file, pos, e, EncodeAll(es[1..]), s, HeadSize);
      SeekEntry(file, pos, e, EncodeAll(es[1..]), s, Payload);
      if e.Lsn() < s {
        assert |es[0].data| == HEAD_SIZE;
        assert forall i :: 0 <= i < Below(es[1..], s) ==> es[1..][i] == es[i + 1];
        SkippedOnStride(file, pos + e.TotalSize(), es[1..], s);
      }
    }
  }

  /** Whenever the entry to start from lies on the stride, the code as written replays exactly the entries
      with LSN >= s. */
  lemma StridedReplay(es: seq<Entry>, s: Int64, cb: Callback)
    requires AllSized(es) && Increasing(es)
    requires Strided(EncodeAll(es), 0, Boundary(es, Below(es, s)), s)
    ensures Iterate(EncodeAll(es), s, HeadSize, cb) == Consume(From(es, s), cb, [])
  {
    var k := Below(es, s);
    var file, target := EncodeAll(es), Boundary(es, k);
    var at := Seek(file, 0, s, HeadSize);
    LiteralSeekExact(es, s);
    SplitAt(es, k);
    FromIsSuffix(es, s);
    hide Seek, Encode, Strided;
    if at.pos == target {
      WholeLog(file, target, es[k..], cb, []);
    } else {
      assert file[target..] == [];
      NothingEncoded(es[k..]);
    }
  }

  lemma NothingEncoded(es: seq<Entry>)
    ensures if es == [] then EncodeAll(es) == [] else |EncodeAll(es)| >= HEAD_SIZE
  {
  }

  /** When every skipped payload is 16 bytes long, the code as written replays exactly the entries with
      LSN >= s. */
  lemma LiteralReplayFrom(es: seq<Entry>, s: Int64, cb: Callback)
    requires AllSized(es) && Increasing(es)
    requires forall i :: 0 <= i < Below(es, s) ==> |es[i].data| == HEAD_SIZE
    ensures Iterate(EncodeAll(es), s, HeadSize, cb) == Consume(From(es, s), cb, [])
  {
    assert EncodeAll(es)[0..] == EncodeAll(es);
    SkippedOnStride(EncodeAll(es), 0, es, s);
    SeekByPayload(EncodeAll(es), 0, es, s);
    LiteralSeekExact(es, s);
    hide Seek, Strided;
    StridedReplay(es, s, cb);
  }

  // ---------- Exactly when the code as written replays the log ----------

  function TakeAll(d: seq<Entry>): RC {
    SUCCESS
  }

  /** From `pos` on the file reads as `tail`: nothing is missing, and what follows is too short for another
      header. */
  predicate TailAt(file: seq<Byte>, pos: nat, tail: seq<Byte>) {
    if pos >= |file| then tail == []
    else tail <= file[pos..] && |file| - pos - |tail| < HEAD_SIZE
  }

  lemma {:induction false} DeliverTail(file: seq<Byte>, pos: nat, es: seq<Entry>, sofar: seq<Entry>)
    ensures AllSized(es) && TailAt(file, pos, EncodeAll(es)) ==>
              Deliver(file, pos, TakeAll, sofar) == Delivery(SUCCESS, sofar + es)
    decreases |es|
  {
    hide EncodeAll, TailAt, Deliver;
    if es == [] {
      NothingEncoded(es);
      DeliverShort(file, pos, sofar);
      assert sofar + es == sofar;
    } else if AllSized(es) {
      DeliverFirst(file, pos, es, sofar);
      var at := pos + es[0].TotalSize();
      DeliverTail(file, at, es[1..], sofar + [es[0]]);
      assert sofar + [es[0]] + es[1..] == sofar + es;
    }
  }

  lemma DeliverFirst(file: seq<Byte>, pos: nat, es: seq<Entry>, sofar: seq<Entry>)
    requires AllSized(es) && es != []
    ensures es[0].Sized() && AllSized(es[1..])
    ensures TailAt(file, pos, EncodeAll(es)) ==>
              var at := pos + es[0].TotalSize();
              && TailAt(file, at, EncodeAll(es[1..]))
              && Deliver(file, pos, TakeAll, sofar) == Deliver(file, at, TakeAll, sofar + [es[0]])
  {
    hide Encode, EncodeAll, TailAt, Rebuilt, HeaderOf, Deliver, HeaderAt, AllSized;
    FirstEncoded(es);
    if TailAt(file, pos, EncodeAll(es)) {
      FirstOfTail(file, pos, es);
      DeliverNext(file, pos, es[0], sofar);
    }
  }

  lemma DeliverShort(file: seq<Byte>, pos: nat, sofar: seq<Entry>)
    ensures TailAt(file, pos, []) ==> Deliver(file, pos, TakeAll, sofar) == Delivery(SUCCESS, sofar)
  {
  }

  lemma FirstEncoded(es: seq<Entry>)
    requires AllSized(es) && es != []
    ensures es[0].Sized() && AllSized(es[1..]) && EncodeAll(es) == Encode(es[0]) + EncodeAll(es[1..])
  {
    assert es[0] in es;
    assert forall e <- es[1..] :: e in es;
    hide Encode;
  }

  lemma TailPrefix(file: seq<Byte>, pos: nat, e: Entry, rest: seq<Byte>)
    requires TailAt(file, pos, Encode(e) + rest)
    ensures pos <= |file| && Encode(e) <= file[pos..]
  {
    assert |Encode(e) + rest| >= HEAD_SIZE;
    hide Encode;
    PrefixEntry(file[pos..], e, rest);
  }

  lemma FirstOfTail(file: seq<Byte>, pos: nat, es: seq<Entry>)
    requires AllSized(es) && es != [] && TailAt(file, pos, EncodeAll(es))
    ensures HeaderAt(file, pos) && HeaderOf(file, pos) == es[0].header
    ensures es[0].Sized() && AllSized(es[1..]) && pos + es[0].TotalSize() <= |file|
    ensures Rebuilt(es[0].header, file[pos + HEAD_SIZE..pos + es[0].TotalSize()]) == es[0]
    ensures TailAt(file, pos + es[0].TotalSize(), EncodeAll(es[1..]))
  {
    hide EncodeAll, AllSized, Encode, TailAt, HeaderAt, HeaderOf, Rebuilt;
    FirstEncoded(es);
    TailPrefix(file, pos, es[0], EncodeAll(es[1..]));
    EntryAt(file, pos, es[0]);
    NextTail(file, pos, es[0], EncodeAll(es[1..]));
  }

  lemma PrefixEntry(body: seq<Byte>, e: Entry, rest: seq<Byte>)
    requires Encode(e) + rest <= body
    ensures Encode(e) <= body && rest <= body[|Encode(e)|..]
  {
    assert (Encode(e) + rest)[..|Encode(e)|] == Encode(e);
  }

  lemma NextTail(file: seq<Byte>, pos: nat, e: Entry, rest: seq<Byte>)
    requires pos <= |file| && e.Sized() && TailAt(file, pos, Encode(e) + rest)
    ensures TailAt(file, pos + e.TotalSize(), rest)
  {
    var next := pos + e.TotalSize();
    PrefixEntry(file[pos..], e, rest);
    assert file[pos..][|Encode(e)|..] == file[next..];
  }

  lemma DeliverNext(file: seq<Byte>, pos: nat, e: Entry, sofar: seq<Entry>)
    requires e.Sized() && HeaderAt(file, pos) && HeaderOf(file, pos) == e.header && pos + e.TotalSize() <= |file|
    requires Rebuilt(e.header, file[pos + HEAD_SIZE..pos + e.TotalSize()]) == e
    ensures Deliver(file, pos, TakeAll, sofar) == Deliver(file, pos + e.TotalSize(), TakeAll, sofar + [e])
  {
  }

  lemma RebuiltIs(h: Header, data: seq<Byte>)
    requires |data| == h.dataSize
    ensures Rebuilt(h, data).Lsn() != 0 ==> Rebuilt(h, data) == Entry(h, data)
  {
    assert |data| < TWO_31;
  }

  /** A delivered entry with an LSN other than 0 is the one whose bytes are in the file. */
  lemma RebuiltBytes(file: seq<Byte>, pos: nat)
    requires HeaderAt(file, pos) && 0 <= HeaderOf(file, pos).dataSize <= |file| - pos - HEAD_SIZE
    ensures var h := HeaderOf(file, pos);
            var next := pos + HEAD_SIZE + h.dataSize;
            var e := Rebuilt(h, file[pos + HEAD_SIZE..next]);
            e.Lsn() != 0 ==> Encode(e) == file[pos..next]
  {
    hide DecodeHeader, EncodeHeader, Rebuilt;
    var h, body := HeaderOf(file, pos), pos + HEAD_SIZE;
    RebuiltIs(h, file[body..body + h.dataSize]);
    HeaderInverse(file[pos..body]);
    assert file[pos..body + h.dataSize] == file[pos..body] + file[body..body + h.dataSize];
  }

  /** An entry in front of a tail. */
  lemma TailGrows(file: seq<Byte>, pos: nat, e: Entry, rest: seq<Byte>)
    requires pos + |Encode(e)| <= |file| && Encode(e) == file[pos..pos + |Encode(e)|]
    requires TailAt(file, pos + |Encode(e)|, rest)
    ensures TailAt(file, pos, Encode(e) + rest)
  {
    hide Encode;
    var next := pos + |Encode(e)|;
    assert file[pos..] == file[pos..next] + file[next..];
  }

  lemma {:induction false} DeliverBack(file: seq<Byte>, pos: nat, es: seq<Entry>, sofar: seq<Entry>)
    requires Deliver(file, pos, TakeAll, sofar) == Delivery(SUCCESS, sofar + es)
    requires forall e <- es :: e.Lsn() != 0
    ensures TailAt(file, pos, EncodeAll(es))
    decreases |es|
  {
    hide Deliver, Encode, TailAt, HeaderAt;
    if !HeaderAt(file, pos) {
      NoneDelivered(file, pos, es, sofar);
    } else {
      FirstDelivered(file, pos, es, sofar);
      assert forall x <- es[1..] :: x in es;
      DeliverBack(file, pos + |Encode(es[0])|, es[1..], sofar + [es[0]]);
      TailGrows(file, pos, es[0], EncodeAll(es[1..]));
    }
  }

  lemma NoneDelivered(file: seq<Byte>, pos: nat, es: seq<Entry>, sofar: seq<Entry>)
    requires !HeaderAt(file, pos) && Deliver(file, pos, TakeAll, sofar) == Delivery(SUCCESS, sofar + es)
    ensures es == [] && TailAt(file, pos, [])
  {
    assert |sofar + es| == |sofar|;
  }

  /** The first entry delivered is the record at `pos`; delivery goes on behind it. */
  lemma FirstDelivered(file: seq<Byte>, pos: nat, es: seq<Entry>, sofar: seq<Entry>)
    requires HeaderAt(file, pos) && Deliver(file, pos, TakeAll, sofar) == Delivery(SUCCESS, sofar + es)
    requires forall e <- es :: e.Lsn() != 0
    ensures es != []
    ensures var next := pos + |Encode(es[0])|;
            && next <= |file| && Encode(es[0]) == file[pos..next]
            && Deliver(file, next, TakeAll, sofar + [es[0]]) == Delivery(SUCCESS, sofar + [es[0]] + es[1..])
  {
    var h := HeaderOf(file, pos);
    var next := pos + HEAD_SIZE + h.dataSize;
    var e := Rebuilt(h, file[pos + HEAD_SIZE..next]);
    DeliverExtends(file, next, TakeAll, sofar + [e]);
    FirstIs(sofar, e, es);
    RebuiltBytes(file, pos);
    hide Deliver, Rebuilt, Encode;
    assert es[0] in es;
  }

  lemma FirstIs(sofar: seq<Entry>, e: Entry, es: seq<Entry>)
    requires sofar + [e] <= sofar + es
    ensures es != [] && es[0] == e && sofar + es == (sofar + [e]) + es[1..]
  {
    assert (sofar + es)[|sofar|] == e;
  }

  /** The code as written replays exactly the entries with LSN >= s if and only if go_to stops where the
      file reads as just these entries.  LSNs start at 1. */
  lemma LiteralReplayExactly(es: seq<Entry>, s: Int64)
    requires AllSized(es) && Increasing(es) && forall e <- es :: e.Lsn() >= 1
    ensures var at := Seek(EncodeAll(es), 0, s, HeadSize);
            Iterate(EncodeAll(es), s, HeadSize, TakeAll) == Delivery(SUCCESS, From(es, s))
            <==> at.rc == SUCCESS && TailAt(EncodeAll(es), at.pos, EncodeAll(From(es, s)))
  {
    hide Seek, Deliver, From, EncodeAll, TailAt, Increasing;
    var file, at := EncodeAll(es), Seek(EncodeAll(es), 0, s, HeadSize);
    var tail := From(es, s);
    FromIsSuffix(es, s);
    assert forall e <- tail :: e in es;
    assert [] + tail == tail;
    if at.rc == SUCCESS {
      if TailAt(file, at.pos, EncodeAll(tail)) {
        DeliverTail(file, at.pos, tail, []);
      }
      if Deliver(file, at.pos, TakeAll, []) == Delivery(SUCCESS, tail) {
        DeliverBack(file, at.pos, tail, []);
      }
    } else {
      SeekCodes(file, 0, s);
    }
  }

  lemma {:induction false} SeekCodes(file: seq<Byte>, pos: nat, s: Int64)
    ensures Seek(file, pos, s, HeadSize).rc in {SUCCESS, IOERR_READ}
    ensures Seek(file, pos, s, HeadSize).pos >= pos
    decreases |file| - pos
  {
    if HeaderAt(file, pos) && HeaderOf(file, pos).lsn < s && ValidSize(HeaderOf(file, pos)) {
      SeekCodes(file, pos + STRIDE, s);
    }
  }

  /** An entry to start from that begins off the 32-byte stride is always missed. */
  lemma OffStrideMisses(es: seq<Entry>, s: Int64)
    requires AllSized(es) && Below(es, s) < |es|
    requires !OnStride(Boundary(es, Below(es, s)))
    ensures !LandsOn(EncodeAll(es), Seek(EncodeAll(es), 0, s, HeadSize), Boundary(es, Below(es, s)))
  {
    LiteralSeekExact(es, s);
    TargetHeader(es, s);
  }

  function Note(lsn: Int64): Entry {
    Entry(Header(lsn, 4, 1), [116, 101, 115, 116])
  }

  /** The log of the repository's own reader test, read from its second entry: go_to as written misses
      that entry. */
  lemma LiteralSeekMisses()
    ensures var es := [Note(1), Note(2), Note(3)];
            AllSized(es) && Increasing(es) && Boundary(es, Below(es, 2)) == 20 &&
            !LandsOn(EncodeAll(es), Seek(EncodeAll(es), 0, 2, HeadSize), 20)
  {
    var es := [Note(1), Note(2), Note(3)];
    assert es[1..][0] == Note(2);
    assert Below(es, 2) == 1;
    assert es[..1] == [Note(1)];
    assert |EncodeAll(es[..1])| == |Encode(Note(1))|;
    OffStrideMisses(es, 2);
  }

  lemma ThreeNotes(es: seq<Entry>)
    requires es == [Note(1), Note(2), Note(3)]
    ensures AllSized(es) && Increasing(es) && From(es, 2) == es[1..]
    ensures EncodeAll(es) == Encode(Note(1)) + EncodeAll(es[1..]) && |EncodeAll(es[1..])| == 40
  {
    assert es[1..] == [Note(2), Note(3)] && es[1..][1..] == [Note(3)] && es[1..][1..][1..] == [];
    FromAll(es[1..], 2);
    assert From(es, 2) == From(es[1..], 2);
    assert |EncodeAll(es[1..])| == |Encode(Note(2))| + |EncodeAll(es[1..][1..])|;
  }

  /** On that log iterate from LSN 2 does not hand over the entries 2 and 3: it reads a header out of the
      middle of the second record. */
  lemma LiteralReplayFails()
    ensures var es := [Note(1), Note(2), Note(3)];
            AllSized(es) && Increasing(es) && |From(es, 2)| == 2
            && Iterate(EncodeAll(es), 2, HeadSize, TakeAll) != Delivery(SUCCESS, From(es, 2))
  {
    hide EncodeAll, From, Increasing, Seek, Iterate, Encode;
    var es := [Note(1), Note(2), Note(3)];
    var file, rest := EncodeAll(es), EncodeAll(es[1..]);
    ThreeNotes(es);
    LiteralReplayExactly(es, 2);
    assert file[0..] == file;
    SeekEntry(file, 0, Note(1), rest, 2, HeadSize);
    SeekCodes(file, STRIDE, 2);
  }

  // ---------- The bytes of a record ----------

  /** LSN, payload size, module id and payload, integers with the lowest byte first. */
  lemma RecordBytes()
    ensures Encode(Entry(Header(0x0102_0304_0506_0708, 3, -2), [10, 20, 30])) ==
            [8, 7, 6, 5, 4, 3, 2, 1, 3, 0, 0, 0, 254, 255, 255, 255, 10, 20, 30]
  {
    hide EncodeLE, Encode, EncodeHeader, EncodeInt64, EncodeInt32;
    var first, second, third := EncodeInt64(0x0102_0304_0506_0708), EncodeInt32(3), EncodeInt32(-2);
    IntegerBytes();
    RecordParts(Entry(Header(0x0102_0304_0506_0708, 3, -2), [10, 20, 30]));
    assert first + second + third + [10, 20, 30] ==
           [8, 7, 6, 5, 4, 3, 2, 1, 3, 0, 0, 0, 254, 255, 255, 255, 10, 20, 30];
  }

  lemma RecordParts(e: Entry)
    ensures Encode(e) == EncodeInt64(e.header.lsn) + EncodeInt32(e.header.dataSize)
                         + EncodeInt32(e.header.moduleId) + e.data
  {
  }

  lemma IntegerBytes()
    ensures EncodeInt64(0x0102_0304_0506_0708) == [8, 7, 6, 5, 4, 3, 2, 1]
    ensures EncodeInt32(3) == [3, 0, 0, 0] && EncodeInt32(-2) == [254, 255, 255, 255]
  {
    hide EncodeLE;
    EightBytes(0x0102_0304_0506_0708);
    FourBytes(0x0102_0304_0506_0708);
    FourBytes(0x0102_0304);
    FourBytes(3);
    FourBytes(0xFFFF_FFFE);
  }

  /** A file that holds the header of LSN 1 and nothing else, read from LSN 2 on: the search takes sizes up to
      4 MiB less the header and fails on any other.  Read from LSN 1 on a negative size throws and a
      positive one is missing its payload. */
  lemma HeaderAlone(size: Int32, moduleId: Int32)
    ensures var file := EncodeHeader(Header(1, size, moduleId));
            && Iterate(file, 2, HeadSize, TakeAll) ==
               Delivery(if 0 <= size <= 4 * 1024 * 1024 - 16 then SUCCESS else IOERR_READ, [])
            && Iterate(file, 1, HeadSize, TakeAll) ==
               (if size < 0 then Delivery(THROWN, []) else if size > 0 then Delivery(IOERR_READ, [])
                else Delivery(SUCCESS, [Entry(Header(1, 0, moduleId), [])]))
  {
    var file := EncodeHeader(Header(1, size, moduleId));
    HeaderRoundTrip(Header(1, size, moduleId));
    assert file[0..HEAD_SIZE] == file && file[HEAD_SIZE..HEAD_SIZE] == [];
    hide EncodeHeader, DecodeHeader;
    assert HeaderOf(file, 0) == Header(1, size, moduleId);
    var e := Entry(Header(1, 0, moduleId), []);
    assert [] + [e] == [e] && Rebuilt(Header(1, 0, moduleId), []) == e;
    assert Deliver(file, HEAD_SIZE, TakeAll, [e]) == Delivery(SUCCESS, [e]);
    assert Seek(file, 0, 1, HeadSize) == Landing(SUCCESS, 0);
    assert Seek(file, HEAD_SIZE + HEAD_SIZE, 2, HeadSize) == Landing(SUCCESS, HEAD_SIZE + HEAD_SIZE);
  }

  /** A record whose payload is over the limit is handed over as a default entry: the refusal of `init` is
      not looked at. */
  lemma OversizedRecord(data: seq<Byte>, moduleId: Int32)
    requires 4 * 1024 * 1024 - 16 < |data| < TWO_31
    ensures Iterate(EncodeHeader(Header(1, |data|, moduleId)) + data, 1, HeadSize, TakeAll) ==
            Delivery(SUCCESS, [Entry(Header(0, 0, 0), [])])
  {
    var h, e := Header(1, |data|, moduleId), Entry(Header(0, 0, 0), []);
    var file := EncodeHeader(h) + data;
    HeaderRoundTrip(h);
    assert file[0..HEAD_SIZE] == EncodeHeader(h) && file[HEAD_SIZE..HEAD_SIZE + |data|] == data;
    hide EncodeHeader, DecodeHeader;
    assert HeaderOf(file, 0) == h;
    AcceptedIsSizedExactly(1, moduleId, data);
    assert [] + [e] == [e] && Rebuilt(h, data) == e;
    assert Deliver(file, HEAD_SIZE + |data|, TakeAll, [e]) == Delivery(SUCCESS, [e]);
    assert Seek(file, 0, 1, HeadSize) == Landing(SUCCESS, 0);
  }
}
