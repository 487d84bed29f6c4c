/** Segmented logs: LogFileManager of src/dimserver/storage/clog/log_file.cpp and the directory it
    manages.

    `Dir` is the directory, the keys of m_log_files and the open writer as a value; a segment is named by
    its first LSN.  `next_file` as written does not record the file it opens, so a rotation is complete
    only together with the directory scan of `init`; both variants are modelled.
 */
module LogSegments {
  import opened Bytes
  import opened ReturnCode
  import opened LogEntry
  import opened LogFormat
  import opened Options

  datatype Dir = Dir(files: map<int, seq<Entry>>, known: set<int>, current: int, perFile: nat)

  ghost function MaxKey(s: set<int>): (m: int)
    requires s != {}
    ensures m in s && forall k <- s :: k <= m
  {
    assert exists x: int :: x in s by {
      if forall x: int :: x !in s {
        assert false;
      }
    }
    var x: int :| x in s;
    var rest := s - {x};
    assert s == rest + {x};
    if rest == {} then x
    else
      var m := MaxKey(rest);
      if x > m then x else m
  }

  ghost function NextStart(known: set<int>, perFile: int): int {
    if known == {} then 0 else MaxKey(known) + perFile
  }

  /** next_file: opens, and creates if it is not there, the segment after the last known one. */
  ghost function NextFile(d: Dir): Dir {
    var s := NextStart(d.known, d.perFile);
    d.(files := if s in d.files then d.files else d.files[s := []], current := s)
  }

  /** The scan of `init`. */
  function Rescan(d: Dir): Dir {
    d.(known := d.files.Keys)
  }

  ghost function Rotate(d: Dir, rescan: bool): Dir {
    if rescan then Rescan(NextFile(d)) else NextFile(d)
  }

  /** LogFileWriter::write on the open segment; None for FILE_FULL. */
  function Write(d: Dir, e: Entry): Option<Dir>
    requires d.current in d.files
  {
    if e.Lsn() >= d.current + d.perFile then None
    else Some(d.(files := d.files[d.current := d.files[d.current] + [e]]))
  }

  /** Write, and after FILE_FULL rotate once and write again. */
  ghost function Store(d: Dir, e: Entry, rescan: bool): Option<Dir>
    requires d.current in d.files
  {
    if Write(d, e).Some? then Write(d, e) else Write(Rotate(d, rescan), e)
  }

  ghost function StoreAll(d: Dir, es: seq<Entry>, rescan: bool): Option<Dir>
    requires d.current in d.files
    decreases |es|
  {
    if es == [] then Some(d)
    else
      match Store(d, es[0], rescan)
      case None => None
      case Some(next) => StoreAll(next, es[1..], rescan)
  }

  /** An empty directory, scanned, and its first segment opened. */
  ghost function Fresh(perFile: nat, rescan: bool): Dir {
    Rotate(Dir(map[], {}, 0, perFile), rescan)
  }

  /** LSNs 1, 2, 3, ... without a gap. */
  predicate Gapless(es: seq<Entry>) {
    forall i :: 0 <= i < |es| ==> es[i].Lsn() == i + 1
  }

  function Clip(x: int, n: nat): nat {
    if x < 0 then 0 else if x > n then n else x
  }

  /** The entries of a gapless log with LSNs in [lo, hi). */
  function Between(es: seq<Entry>, lo: int, hi: int): seq<Entry>
    requires lo <= hi
  {
    es[Clip(lo - 1, |es|)..Clip(hi - 1, |es|)]
  }

  /** The directory holds exactly the segments 0, n, ..., q * n, and segment s holds exactly the entries
      with LSNs in [s, s + n), in order. */
  ghost predicate Segmented(d: Dir, es: seq<Entry>, q: nat) {
    && d.perFile > 0 && Gapless(es)
    && d.current == StartOf(q, d.perFile)
    && d.current <= |es| < d.current + d.perFile
    && (forall k :: k in d.files <==> Multiple(k, d.perFile, q))
    && (forall k <- d.files :: d.files[k] == Between(es, k, k + d.perFile))
  }

  ghost predicate Multiple(k: int, n: nat, q: nat) {
    exists i :: 0 <= i <= q && k == StartOf(i, n)
  }

  /** The first LSN of the i-th segment. */
  function StartOf(i: int, n: nat): int {
    i * n
  }

  lemma StartOrder(i: int, j: int, n: nat)
    ensures i <= j ==> StartOf(i, n) <= StartOf(j, n)
    ensures i < j ==> StartOf(i, n) + n <= StartOf(j, n)
    ensures StartOf(i + 1, n) == StartOf(i, n) + n
  {
    if i < j {
      assert (j - i - 1) * n >= 0;
      assert j * n == i * n + n + (j - i - 1) * n;
    }
  }

  lemma MultipleNext(k: int, n: nat, q: nat)
    ensures Multiple(k, n, q + 1) <==> Multiple(k, n, q) || k == StartOf(q, n) + n
  {
    StartOrder(q, q, n);
    if Multiple(k, n, q + 1) {
      var i :| 0 <= i <= q + 1 && k == StartOf(i, n);
      if i <= q {
        assert Multiple(k, n, q);
      }
    }
    assert Multiple(StartOf(q + 1, n), n, q + 1);
  }

  lemma MultipleBound(k: int, n: nat, q: nat)
    requires n > 0 && Multiple(k, n, q)
    ensures 0 <= k <= StartOf(q, n) && (k < StartOf(q, n) ==> k + n <= StartOf(q, n))
  {
    var i :| 0 <= i <= q && k == StartOf(i, n);
    StartOrder(i, q, n);
    StartOrder(0, i, n);
  }

  lemma BetweenAppend(es: seq<Entry>, e: Entry, lo: int, hi: int)
    requires lo <= hi
    ensures hi <= |es| + 1 ==> Between(es + [e], lo, hi) == Between(es, lo, hi)
    ensures lo <= |es| + 1 < hi ==> Between(es + [e], lo, hi) == Between(es, lo, hi) + [e]
    ensures lo == |es| + 1 ==> Between(es, lo, hi) == []
  {
    var a, b := Clip(lo - 1, |es|), Clip(hi - 1, |es|);
    assert (es + [e])[a..b] == es[a..b];
    assert (es + [e])[a..] == es[a..] + [e];
  }

  lemma AppendKeeps(d: Dir, es: seq<Entry>, q: nat, e: Entry)
    requires Segmented(d, es, q) && Gapless(es + [e]) && e.Lsn() < d.current + d.perFile
    ensures d.current in d.files && Write(d, e).Some? && Segmented(Write(d, e).value, es + [e], q)
  {
    hide Between;
    assert (es + [e])[|es|] == e;
    assert Multiple(StartOf(q, d.perFile), d.perFile, q);
    var v := Write(d, e).value;
    forall k | k in v.files ensures v.files[k] == Between(es + [e], k, k + d.perFile) {
      MultipleBound(k, d.perFile, q);
      BetweenAppend(es, e, k, k + d.perFile);
    }
  }

  /** The last known segment is the open one. */
  lemma LastIsOpen(d: Dir, es: seq<Entry>, q: nat)
    requires Segmented(d, es, q) && d.known == d.files.Keys
    ensures d.known != {} && MaxKey(d.known) == d.current && d.current + d.perFile == StartOf(q + 1, d.perFile)
    ensures d.current + d.perFile !in d.files
  {
    assert Multiple(StartOf(q, d.perFile), d.perFile, q);
    hide Between;
    StartOrder(q, q, d.perFile);
    var start := d.current + d.perFile;
    MultipleBound(MaxKey(d.known), d.perFile, q);
    if start in d.files {
      MultipleBound(start, d.perFile, q);
    }
  }

  lemma RotateKeeps(d: Dir, es: seq<Entry>, q: nat)
    requires Segmented(d, es, q) && d.known == d.files.Keys && |es| + 1 == d.current + d.perFile
    ensures var r := Rotate(d, true);
            r.current == StartOf(q + 1, d.perFile) && r.known == r.files.Keys && r.perFile == d.perFile
            && r.current == d.current + d.perFile
            && (forall k :: k in r.files <==> Multiple(k, d.perFile, q + 1))
            && (forall k <- r.files :: r.files[k] == Between(es, k, k + d.perFile))
  {
    LastIsOpen(d, es, q);
    var start := d.current + d.perFile;
    assert Rotate(d, true) == d.(files := d.files[start := []], current := start, known := d.files.Keys + {start});
    BetweenPast(es, start, start + d.perFile);
    hide Rotate, Between, Multiple, StartOf, MaxKey;
    forall k ensures Multiple(k, d.perFile, q + 1) <==> Multiple(k, d.perFile, q) || k == start {
      MultipleNext(k, d.perFile, q);
    }
  }

  lemma BetweenPast(es: seq<Entry>, lo: int, hi: int)
    requires |es| < lo <= hi
    ensures Between(es, lo, hi) == []
  {
  }

  lemma RotatedStoreKeeps(d: Dir, es: seq<Entry>, q: nat, e: Entry)
    requires Segmented(d, es, q) && d.known == d.files.Keys && Gapless(es + [e]) && |es| + 1 == d.current + d.perFile
    ensures var r := Rotate(d, true);
            r.current in r.files && Write(r, e).Some? && Segmented(Write(r, e).value, es + [e], q + 1)
            && Write(r, e).value.known == Write(r, e).value.files.Keys && Write(r, e).value.perFile == d.perFile
  {
    hide NextStart, NextFile, Rescan, Between;
    StartOrder(q, q, d.perFile);
    assert (es + [e])[|es|] == e;
    RotateKeeps(d, es, q);
    var r := Rotate(d, true);
    assert Multiple(StartOf(q + 1, d.perFile), d.perFile, q + 1);
    var v := Write(r, e).value;
    forall k | k in v.files ensures v.files[k] == Between(es + [e], k, k + d.perFile) {
      MultipleBound(k, d.perFile, q + 1);
      BetweenAppend(es, e, k, k + d.perFile);
    }
  }

  lemma StoreKeeps(d: Dir, es: seq<Entry>, q: nat, e: Entry) returns (p: nat)
    requires Segmented(d, es, q) && d.known == d.files.Keys && Gapless(es + [e])
    ensures d.current in d.files && Store(d, e, true).Some?
    ensures var v := Store(d, e, true).value;
            Segmented(v, es + [e], p) && v.known == v.files.Keys && v.perFile == d.perFile
  {
    hide Rotate;
    assert (es + [e])[|es|] == e;
    assert Multiple(StartOf(q, d.perFile), d.perFile, q);
    if e.Lsn() < d.current + d.perFile {
      AppendKeeps(d, es, q, e);
      p := q;
    } else {
      RotatedStoreKeeps(d, es, q, e);
      p := q + 1;
    }
  }

  /** Storing a gapless stream with a rotation on each FILE_FULL never fails, and every LSN lands in
      exactly one segment: segment s holds exactly the entries with LSNs in [s, s + perFile), in order. */
  lemma {:induction false} StoreAllSegments(d: Dir, front: seq<Entry>, q: nat, es: seq<Entry>) returns (p: nat)
    requires Segmented(d, front, q) && d.known == d.files.Keys && Gapless(front + es)
    ensures d.current in d.files && StoreAll(d, es, true).Some?
    ensures Segmented(StoreAll(d, es, true).value, front + es, p)
    ensures StoreAll(d, es, true).value.known == StoreAll(d, es, true).value.files.Keys
    ensures StoreAll(d, es, true).value.perFile == d.perFile
    decreases |es|
  {
    hide Store;
    assert Multiple(StartOf(q, d.perFile), d.perFile, q);
    if es == [] {
      assert front + es == front;
      p := q;
    } else {
      var e := es[0];
      assert front + es == front + [e] + es[1..];
      assert forall i :: 0 <= i < |front + [e]| ==> (front + [e])[i] == (front + es)[i];
      var q1 := StoreKeeps(d, front, q, e);
      p := StoreAllSegments(Store(d, e, true).value, front + [e], q1, es[1..]);
    }
  }

  /** What a segmented directory is, spelled out: the segments are named 0, n, 2n, ..., the last one being the
      only one still open to the next entry; and the segment named k holds exactly the entries with LSNs from
      k up to but not including k + n, by ascending LSN. */
  lemma SegmentedMeans(d: Dir, es: seq<Entry>, q: nat)
    requires Segmented(d, es, q)
    ensures forall k :: k in d.files <==> exists i :: 0 <= i <= q && k == i * d.perFile
    ensures d.current == q * d.perFile <= |es| < q * d.perFile + d.perFile
    ensures forall k <- d.files, e :: e in d.files[k] <==> e in es && k <= e.Lsn() < k + d.perFile
    ensures forall k <- d.files, i, j :: 0 <= i < j < |d.files[k]| ==> d.files[k][i].Lsn() < d.files[k][j].Lsn()
  {
    forall k ensures k in d.files <==> exists i :: 0 <= i <= q && k == i * d.perFile {
      if i :| 0 <= i <= q && k == StartOf(i, d.perFile) {
        assert k == i * d.perFile;
      }
      if i :| 0 <= i <= q && k == i * d.perFile {
        assert k == StartOf(i, d.perFile);
      }
    }
    forall k | k in d.files
      ensures forall e :: e in d.files[k] <==> e in es && k <= e.Lsn() < k + d.perFile
      ensures forall i, j :: 0 <= i < j < |d.files[k]| ==> d.files[k][i].Lsn() < d.files[k][j].Lsn()
    {
      BetweenMeans(es, k, k + d.perFile);
    }
  }

  lemma BetweenMeans(es: seq<Entry>, lo: int, hi: int)
    requires Gapless(es) && lo <= hi
    ensures forall e :: e in Between(es, lo, hi) <==> e in es && lo <= e.Lsn() < hi
    ensures forall i, j :: 0 <= i < j < |Between(es, lo, hi)| ==>
              Between(es, lo, hi)[i].Lsn() < Between(es, lo, hi)[j].Lsn()
  {
    var a, b := Clip(lo - 1, |es|), Clip(hi - 1, |es|);
    var part := Between(es, lo, hi);
    forall i | 0 <= i < |part| ensures part[i] == es[a + i] && part[i].Lsn() == a + i + 1 {
    }
    forall e | e in es && lo <= e.Lsn() < hi ensures e in part {
      var i :| 0 <= i < |es| && es[i] == e;
      assert part[i - a] == e;
    }
  }

  /** The segmentation theorem from an empty directory. */
  lemma SegmentsOfStream(perFile: nat, es: seq<Entry>) returns (q: nat)
    requires perFile > 0 && Gapless(es)
    ensures Fresh(perFile, true).current in Fresh(perFile, true).files
    ensures StoreAll(Fresh(perFile, true), es, true).Some?
    ensures Segmented(StoreAll(Fresh(perFile, true), es, true).value, es, q)
  {
    var d := Fresh(perFile, true);
    assert StartOf(0, perFile) == 0;
    assert Multiple(0, perFile, 0);
    forall k | Multiple(k, perFile, 0) ensures k == 0 {
      MultipleBound(k, perFile, 0);
    }
    assert Segmented(d, [], 0);
    assert [] + es == es;
    q := StoreAllSegments(d, [], 0, es);
  }

  // ---------- Reading the segments back ----------

  predicate Ascending(keys: seq<int>) {
    forall i, j :: 0 <= i < j < |keys| ==> keys[i] < keys[j]
  }

  /** What list_files(s) lists: the segments whose first LSN is at least s, in ascending order. */
  predicate Lists(d: Dir, s: int, keys: seq<int>) {
    && Ascending(keys)
    && (forall i :: 0 <= i < |keys| ==> keys[i] in d.files && keys[i] >= s)
    && (forall k <- d.files :: k >= s ==> k in keys)
  }

  /** The entries read from the listed files one after the other. */
  function Collected(d: Dir, keys: seq<int>): seq<Entry>
    requires forall i :: 0 <= i < |keys| ==> keys[i] in d.files
  {
    if keys == [] then [] else d.files[keys[0]] + Collected(d, keys[1..])
  }

  lemma SegmentEntry(d: Dir, es: seq<Entry>, q: nat, s: Int64, k: int, i: nat)
    requires Segmented(d, es, q) && AllSized(es) && k in d.files && k >= s && i < |d.files[k]|
    ensures d.files[k][i].Lsn() >= s && d.files[k][i].Sized()
  {
    MultipleBound(k, d.perFile, q);
    assert d.files[k][i] == es[Clip(k - 1, |es|) + i];
  }

  /** Every entry of a listed segment is to be read. */
  lemma SegmentEntries(d: Dir, es: seq<Entry>, q: nat, s: Int64, k: int)
    requires Segmented(d, es, q) && AllSized(es) && k in d.files && k >= s
    ensures AllSized(d.files[k]) && forall e <- d.files[k] :: e.Lsn() >= s
  {
    forall e | e in d.files[k] ensures e.Lsn() >= s && e.Sized() {
      var i :| 0 <= i < |d.files[k]| && d.files[k][i] == e;
      SegmentEntry(d, es, q, s, k, i);
    }
  }

  /** Reading a whole file whose entries all have an LSN of at least s. */
  lemma WholeFile(f: seq<Entry>, s: Int64, cb: Callback)
    requires AllSized(f) && forall e <- f :: e.Lsn() >= s
    ensures Iterate(EncodeAll(f), s, HeadSize, cb) == Consume(f, cb, [])
  {
    CrashRecovery(f, |EncodeAll(f)|, cb, s, HeadSize);
    WholeAtEnd(f);
    ConsumeDelivers(f, cb, []);
    hide AllSized, Iterate, Consume, EncodeAll, WholeEntries, Boundary;
    assert EncodeAll(f)[..|EncodeAll(f)|] == EncodeAll(f);
    assert f[..|f|] == f && [] + f == f;
  }

  /** A listed file is read whole by the reader as written: every entry in it has an LSN of at least s,
      so go_to stops at once. */
  lemma ListedFileIsReadWhole(d: Dir, es: seq<Entry>, q: nat, s: Int64, k: int, cb: Callback)
    requires Segmented(d, es, q) && AllSized(es) && k in d.files && k >= s
    ensures Iterate(EncodeAll(d.files[k]), s, HeadSize, cb) == Consume(d.files[k], cb, [])
  {
    SegmentEntries(d, es, q, s, k);
    hide Segmented, AllSized, Iterate, Consume, EncodeAll;
    WholeFile(d.files[k], s, cb);
  }

  lemma WholeAtEnd(f: seq<Entry>)
    ensures WholeEntries(f, |EncodeAll(f)|) == |f|
  {
    hide Encode;
    assert f[..|f|] == f;
    var k := WholeEntries(f, |EncodeAll(f)|);
    if k < |f| {
      assert f == f[..k + 1] + f[k + 1..];
      EncodeAllConcat(f[..k + 1], f[k + 1..]);
    }
  }

  lemma {:induction false} ConsumeDelivers(es: seq<Entry>, cb: Callback, sofar: seq<Entry>)
    ensures !Consume(es, cb, sofar).rc.IsFail() ==> Consume(es, cb, sofar) == Delivery(SUCCESS, sofar + es)
    decreases |es|
  {
    if es == [] {
      assert sofar + es == sofar;
    } else if !cb(sofar + [es[0]]).IsFail() {
      ConsumeDelivers(es[1..], cb, sofar + [es[0]]);
      assert sofar + [es[0]] + es[1..] == sofar + es;
    }
  }

  lemma {:induction false} FromIsTail(es: seq<Entry>, s: Int64, shift: nat)
    requires forall i :: 0 <= i < |es| ==> es[i].Lsn() == shift + i + 1
    ensures From(es, s) == es[Clip(s - shift - 1, |es|)..]
    decreases |es|
  {
    if es != [] {
      FromIsTail(es[1..], s, shift + 1);
    }
  }

  lemma TailSplit(es: seq<Entry>, start: int, n: nat)
    ensures Between(es, start, start + n) + es[Clip(start + n - 1, |es|)..] == es[Clip(start - 1, |es|)..]
  {
  }

  /** The segments listed from the i-th on, read in order, hold exactly the entries from its start on. */
  lemma {:induction false} CollectedIsTail(d: Dir, es: seq<Entry>, q: nat, i: nat, keys: seq<int>)
    requires Segmented(d, es, q) && Lists(d, StartOf(i, d.perFile), keys)
    ensures Collected(d, keys) == es[Clip(StartOf(i, d.perFile) - 1, |es|)..]
    decreases |keys|
  {
    hide StartOf, Between, Clip;
    var n, start := d.perFile, StartOf(i, d.perFile);
    StartOrder(i, q, n);
    if i > q {
      NoneListed(d, es, q, i, keys);
    } else {
      FirstListed(d, es, q, i, keys);
      RestListed(d, es, q, i, keys);
      CollectedIsTail(d, es, q, i + 1, keys[1..]);
      TailSplit(es, start, n);
    }
  }

  lemma NoneListed(d: Dir, es: seq<Entry>, q: nat, i: nat, keys: seq<int>)
    requires Segmented(d, es, q) && Lists(d, StartOf(i, d.perFile), keys) && i > q
    ensures keys == [] && es[Clip(StartOf(i, d.perFile) - 1, |es|)..] == []
  {
    StartOrder(q, i, d.perFile);
    if keys != [] {
      MultipleBound(keys[0], d.perFile, q);
    }
  }

  lemma FirstListed(d: Dir, es: seq<Entry>, q: nat, i: nat, keys: seq<int>)
    requires Segmented(d, es, q) && Lists(d, StartOf(i, d.perFile), keys) && i <= q
    ensures keys != [] && keys[0] == StartOf(i, d.perFile) && keys[0] in d.files
  {
    assert Multiple(StartOf(i, d.perFile), d.perFile, q);
    var j :| 0 <= j < |keys| && keys[j] == StartOf(i, d.perFile);
    AscendingFirst(keys, j);
  }

  lemma AscendingFirst(keys: seq<int>, j: nat)
    requires Ascending(keys) && j < |keys|
    ensures keys[0] <= keys[j] && (keys[0] == keys[j] ==> j == 0)
  {
  }

  lemma RestListed(d: Dir, es: seq<Entry>, q: nat, i: nat, keys: seq<int>)
    requires Segmented(d, es, q) && Lists(d, StartOf(i, d.perFile), keys)
    requires keys != [] && keys[0] == StartOf(i, d.perFile)
    ensures Lists(d, StartOf(i + 1, d.perFile), keys[1..])
  {
    hide StartOf, Between, Clip, Gapless;
    var n := d.perFile;
    StartOrder(i, i, n);
    forall j | 0 <= j < |keys[1..]| ensures keys[1..][j] in d.files && keys[1..][j] >= StartOf(i + 1, n) {
      assert keys[1..][j] == keys[j + 1] > keys[0];
      NextMultiple(keys[j + 1], n, q, i);
    }
    forall k | k in d.files && k >= StartOf(i + 1, n) ensures k in keys[1..] {
      var j :| 0 <= j < |keys| && keys[j] == k;
      assert keys[1..][j - 1] == k;
    }
  }

  lemma NextMultiple(k: int, n: nat, q: nat, i: int)
    requires n > 0 && Multiple(k, n, q) && k > StartOf(i, n)
    ensures k >= StartOf(i, n) + n
  {
    var j :| 0 <= j <= q && k == StartOf(j, n);
    StartOrder(j, i, n);
    StartOrder(i, j, n);
  }

  /** The index of the first segment that starts at s or later. */
  function SegmentsBefore(s: int, n: nat): (i: nat)
    requires n > 0
    ensures s <= StartOf(i, n) && (i > 0 ==> StartOf(i - 1, n) < s)
    decreases if s > 0 then s else 0
  {
    if s <= 0 then
      StartOrder(0, 0, n);
      0
    else
      var i := SegmentsBefore(s - n, n);
      StartOrder(i, i, n);
      StartOrder(i - 1, i, n);
      i + 1
  }

  /** list_files as written starts at the first segment that begins at or after s. */
  lemma ListedFromNextSegment(d: Dir, s: int, i: nat, keys: seq<int>, es: seq<Entry>, q: nat)
    requires Segmented(d, es, q) && Lists(d, s, keys)
    requires s <= StartOf(i, d.perFile) && (i > 0 ==> StartOf(i - 1, d.perFile) < s)
    ensures Lists(d, StartOf(i, d.perFile), keys)
  {
    hide Between, Clip, Gapless;
    StartOrder(i - 1, i, d.perFile);
    forall j | 0 <= j < |keys| ensures keys[j] >= StartOf(i, d.perFile) {
      if i > 0 {
        NextMultiple(keys[j], d.perFile, q, i - 1);
      } else {
        MultipleBound(keys[j], d.perFile, q);
      }
    }
  }

  ghost predicate SegmentStart(s: int, n: nat) {
    exists i :: s == StartOf(i, n)
  }

  lemma OnlyStart(s: int, n: nat, i: nat)
    requires n > 0 && s <= StartOf(i, n) && (i > 0 ==> StartOf(i - 1, n) < s)
    ensures s > 0 ==> (SegmentStart(s, n) <==> s == StartOf(i, n))
  {
    if s > 0 && SegmentStart(s, n) {
      var j :| s == StartOf(j, n);
      StartOrder(j, i - 1, n);
      StartOrder(i, j, n);
    }
  }

  /** Reading the files that list_files(s) lists replays exactly the entries with LSN >= s if and only if
      s is at most 0, a segment start, or past the last LSN.  Started inside a segment, the code as
      written leaves that segment's entries out. */
  lemma ReplayListedExact(d: Dir, es: seq<Entry>, q: nat, s: Int64, keys: seq<int>)
    requires Segmented(d, es, q) && Lists(d, s, keys)
    ensures Collected(d, keys) == From(es, s) <==> s <= 0 || SegmentStart(s, d.perFile) || s > |es|
  {
    hide Lists, Between, Collected, From, SegmentStart, Clip;
    var n := d.perFile;
    assert n > 0 && Gapless(es);
    var i := SegmentsBefore(s, n);
    ListedFromNextSegment(d, s, i, keys, es, q);
    CollectedIsTail(d, es, q, i, keys);
    FromIsTail(es, s, 0);
    OnlyStart(s, n, i);
    TailsEqual(es, StartOf(i, n), s);
    StartOrder(0, i, n);
  }

  lemma TailsEqual(es: seq<Entry>, a: int, b: int)
    requires b <= a && (b > 0 || a <= 1)
    ensures es[Clip(a - 1, |es|)..] == es[Clip(b - 1, |es|)..] <==> a == b || b > |es| || a <= 1
  {
    if es[Clip(a - 1, |es|)..] == es[Clip(b - 1, |es|)..] {
      assert |es[Clip(a - 1, |es|)..]| == |es[Clip(b - 1, |es|)..]|;
    }
  }

  // ---------- Without the rescan ----------

  /** The directory of a stream that was never rescanned: one segment, holding what fits. */
  ghost predicate Stale(d: Dir, es: seq<Entry>) {
    d.known == {} && d.current == 0 && d.files == map[0 := es] && |es| < d.perFile && Gapless(es)
  }

  lemma {:induction false} StaleStoreAll(d: Dir, front: seq<Entry>, es: seq<Entry>)
    requires Stale(d, front) && Gapless(front + es)
    ensures StoreAll(d, es, false).Some? <==> |front + es| < d.perFile
    decreases |es|
  {
    if es == [] {
      assert front + es == front;
    } else {
      var e := es[0];
      assert (front + es)[|front|] == e;
      if e.Lsn() < d.perFile {
        assert front + es == front + [e] + es[1..];
        assert forall i :: 0 <= i < |front + [e]| ==> (front + [e])[i] == (front + es)[i];
        assert d.files[0 := front + [e]] == map[0 := front + [e]];
        StaleStoreAll(Write(d, e).value, front + [e], es[1..]);
      } else {
        assert Rotate(d, false).files == d.files;
      }
    }
  }

  /** next_file alone does not rotate: since it does not record the file it opens, a second call opens
      the same file again, and a stream is stored only as far as it fits into the first segment. */
  lemma WithoutRescanOneSegment(perFile: nat, es: seq<Entry>)
    requires perFile > 0 && Gapless(es)
    ensures Fresh(perFile, false).current in Fresh(perFile, false).files
    ensures StoreAll(Fresh(perFile, false), es, false).Some? <==> |es| < perFile
  {
    assert [] + es == es;
    StaleStoreAll(Fresh(perFile, false), [], es);
  }
}
