/** Whole runs of the double-write buffer, cut by a crash at any write of any operation. */
module DoubleWriteRuns {
  import opened Options
  import opened DoubleWrite

  /** add_page, or flush_page visiting the pages in some order.  The flush that add_page runs when the
      buffer is full is a FlushOp of its own. */
  datatype Op = AddOp(key: Key, page: Page) | FlushOp(order: seq<Key>)

  datatype State = State(mem: Mem, disk: Disk)

  /** A new page version is not older than the current one; a flush visits every cached page. */
  ghost predicate Legal(st: State, op: Op) {
    match op
    case AddOp(k, p) => NotOlder(st.mem, st.disk, k, p)
    case FlushOp(ks) => Covers(st.mem, ks)
  }

  ghost function Issued(st: State, op: Op): seq<Write>
    requires Legal(st, op)
  {
    match op
    case AddOp(k, p) => AddWrites(st.mem, k, p)
    case FlushOp(ks) => FlushWrites(st.mem, ks)
  }

  ghost function Exec(st: State, op: Op): State
    requires Legal(st, op)
  {
    State(if op.AddOp? then AddMem(st.mem, op.key, op.page) else EMPTY, ApplyAll(st.disk, Issued(st, op)))
  }

  ghost predicate LegalRun(st: State, ops: seq<Op>)
    decreases |ops|, 0
  {
    ops == [] || (LegalRun(st, ops[..|ops| - 1]) && Legal(RunAll(st, ops[..|ops| - 1]), ops[|ops| - 1]))
  }

  ghost function RunAll(st: State, ops: seq<Op>): State
    requires LegalRun(st, ops)
    decreases |ops|, 1
  {
    if ops == [] then st else Exec(RunAll(st, ops[..|ops| - 1]), ops[|ops| - 1])
  }

  /** A fresh buffer file beside whole page files. */
  function Start(pages: map<Key, Page>): State {
    State(EMPTY, Disk(map k | k in pages :: Whole(pages[k]), map[], 0))
  }

  // ---------- The history of a page, independent of buffer and disk ----------

  /** The last version of page k that was added, or the one it started with. */
  function History(pages: map<Key, Page>, ops: seq<Op>, k: Key): Option<Page> {
    if ops == [] then (if k in pages then Some(pages[k]) else None)
    else
      match ops[|ops| - 1]
      case AddOp(key, p) => if key == k then Some(p) else History(pages, ops[..|ops| - 1], k)
      case FlushOp(_) => History(pages, ops[..|ops| - 1], k)
  }

  /** The operations up to the last flush. */
  function FlushedPart(ops: seq<Op>): seq<Op> {
    if ops == [] || ops[|ops| - 1].FlushOp? then ops else FlushedPart(ops[..|ops| - 1])
  }

  /** Page k was added after the last flush. */
  predicate AddedSince(ops: seq<Op>, k: Key) {
    && ops != [] && ops[|ops| - 1].AddOp?
    && (ops[|ops| - 1].key == k || AddedSince(ops[..|ops| - 1], k))
  }

  lemma StartInv(pages: map<Key, Page>)
    ensures Inv(Start(pages).mem, Start(pages).disk, [])
  {
  }

  lemma {:induction false} RunInv(pages: map<Key, Page>, ops: seq<Op>) returns (order: seq<Key>)
    requires LegalRun(Start(pages), ops)
    ensures Inv(RunAll(Start(pages), ops).mem, RunAll(Start(pages), ops).disk, order)
  {
    hide Inv, ApplyAll, AddMem;
    if ops == [] {
      StartInv(pages);
      order := [];
    } else {
      var before := RunInv(pages, ops[..|ops| - 1]);
      var st := RunAll(Start(pages), ops[..|ops| - 1]);
      match ops[|ops| - 1]
      case AddOp(k, p) =>
        AddKeeps(st.mem, st.disk, before, k, p);
        order := OrderAfterAdd(st.mem, before, k);
      case FlushOp(ks) =>
        FlushEmpties(st.mem, st.disk, before, ks);
        order := [];
    }
  }

  /** The current contents are the history's; the home copies are the history's up to the last flush;
      and the cached pages are those added since. */
  lemma {:induction false} StateIsHistory(pages: map<Key, Page>, ops: seq<Op>, k: Key)
    requires LegalRun(Start(pages), ops)
    ensures var st := RunAll(Start(pages), ops);
            && Latest(st.mem, st.disk, k) == History(pages, ops, k)
            && HomeOf(st.disk, k) == History(pages, FlushedPart(ops), k)
            && (k in st.mem.pages <==> AddedSince(ops, k))
  {
    hide Inv, ApplyAll;
    if ops != [] {
      var front := ops[..|ops| - 1];
      StateIsHistory(pages, front, k);
      var order := RunInv(pages, front);
      var st := RunAll(Start(pages), front);
      match ops[|ops| - 1]
      case AddOp(key, p) => AddMoves(st, order, key, p, k);
      case FlushOp(ks) => FlushMoves(st, order, ks, k);
      hide Latest, HomeOf, Exec;
    }
  }

  /** What adding a page does to the three observations of page k. */
  lemma AddMoves(st: State, order: seq<Key>, key: Key, p: Page, k: Key)
    requires Inv(st.mem, st.disk, order) && Legal(st, AddOp(key, p))
    ensures var t := Exec(st, AddOp(key, p));
            && Latest(t.mem, t.disk, k) == (if k == key then Some(p) else Latest(st.mem, st.disk, k))
            && HomeOf(t.disk, k) == HomeOf(st.disk, k)
            && (k in t.mem.pages <==> k == key || k in st.mem.pages)
  {
    AddKeeps(st.mem, st.disk, order, key, p);
    hide Inv, ApplyAll;
  }

  /** What a flush does to them. */
  lemma FlushMoves(st: State, order: seq<Key>, ks: seq<Key>, k: Key)
    requires Inv(st.mem, st.disk, order) && Legal(st, FlushOp(ks))
    ensures var t := Exec(st, FlushOp(ks));
            && Latest(t.mem, t.disk, k) == Latest(st.mem, st.disk, k) == HomeOf(t.disk, k)
            && k !in t.mem.pages
  {
    FlushEmpties(st.mem, st.disk, order, ks);
    hide Inv, ApplyAll;
  }

  // ---------- Crash safety ----------

  /** The disk after the first j writes of `op` and a crash on the next one. */
  ghost function CrashedIn(st: State, op: Op, j: nat, at: Moment): Disk
    requires Legal(st, op) && j < |Issued(st, op)|
  {
    CrashImage(ApplyAll(st.disk, Issued(st, op)[..j]), Issued(st, op)[j], at)
  }

  /** The crash tears the overwrite, in place, of the slot of page k. */
  predicate TornOverwrite(ops: seq<Op>, op: Op, at: Moment, k: Key) {
    op.AddOp? && op.key == k && AddedSince(ops, k) && at.During?
  }

  /** After any run and a crash at any write of the next operation, loading succeeds, and every page has
      exactly its last added version, or already the one being added.  The one exception is a torn
      overwrite in place: that page falls back on the version it had at the last flush. */
  lemma CrashAnywhere(pages: map<Key, Page>, ops: seq<Op>, op: Op, j: nat, at: Moment, k: Key)
    requires LegalRun(Start(pages), ops) && Legal(RunAll(Start(pages), ops), op)
    requires j < |Issued(RunAll(Start(pages), ops), op)|
    ensures var img := CrashedIn(RunAll(Start(pages), ops), op, j, at);
            && Loadable(img)
            && (TornOverwrite(ops, op, at, k) ==> Recovered(img, k) == History(pages, FlushedPart(ops), k))
            && (!TornOverwrite(ops, op, at, k) ==>
                  || Recovered(img, k) == History(pages, ops, k)
                  || (op.AddOp? && op.key == k && Recovered(img, k) == Some(op.page)))
  {
    hide Inv, ApplyAll, Recovered, Latest, HomeOf, Loadable, CrashImage;
    var order := RunInv(pages, ops);
    var st := RunAll(Start(pages), ops);
    StateIsHistory(pages, ops, k);
    match op
    case AddOp(key, p) => AddCrash(st.mem, st.disk, order, key, p, j, at, k);
    case FlushOp(ks) => FlushCrash(st.mem, st.disk, order, ks, j, at, k);
  }

  /** Page k comes back in its last added version or, if it is being added, already in the new one. */
  predicate UpToDate(pages: map<Key, Page>, ops: seq<Op>, op: Op, k: Key, found: Option<Page>) {
    found == History(pages, ops, k) || (op.AddOp? && op.key == k && found == Some(op.page))
  }

  /** Crash safety as one condition: a page is up to date after the crash if and only if the crash does not
      tear the overwrite of its slot, or its version at the last flush was up to date anyway. */
  lemma CrashAnywhereExactly(pages: map<Key, Page>, ops: seq<Op>, op: Op, j: nat, at: Moment, k: Key)
    requires LegalRun(Start(pages), ops) && Legal(RunAll(Start(pages), ops), op)
    requires j < |Issued(RunAll(Start(pages), ops), op)|
    ensures var img := CrashedIn(RunAll(Start(pages), ops), op, j, at);
            && Loadable(img)
            && (UpToDate(pages, ops, op, k, Recovered(img, k)) <==>
                !TornOverwrite(ops, op, at, k) || UpToDate(pages, ops, op, k, History(pages, FlushedPart(ops), k)))
  {
    hide Loadable, Recovered, CrashedIn, RunAll, LegalRun, Legal, Issued;
    CrashAnywhere(pages, ops, op, j, at, k);
  }

  /** A page added and never flushed before has no home copy to fall back on: a torn overwrite of its
      slot loses it. */
  lemma TornOverwriteLoses(k: Key, p: Page, q: Page)
    requires p.stamp <= q.stamp
    ensures var ops := [AddOp(k, p)];
            && LegalRun(Start(map[]), ops) && Legal(RunAll(Start(map[]), ops), AddOp(k, q))
            && |Issued(RunAll(Start(map[]), ops), AddOp(k, q))| == 1
            && History(map[], ops, k) == Some(p)
            && Loadable(CrashedIn(RunAll(Start(map[]), ops), AddOp(k, q), 0, During))
            && Recovered(CrashedIn(RunAll(Start(map[]), ops), AddOp(k, q), 0, During), k) == None
  {
    var ops := [AddOp(k, p)];
    assert ops[..0] == [];
    assert LegalRun(Start(map[]), []) && RunAll(Start(map[]), []) == Start(map[]);
    StateIsHistory(map[], ops, k);
    assert FlushedPart(ops) == FlushedPart([]);
    CrashAnywhere(map[], ops, AddOp(k, q), 0, During, k);
  }

  lemma HomesDuringFlush(m: Mem, d: Disk, order: seq<Key>, ks: seq<Key>, j: nat, at: Moment, k: Key)
    requires Inv(m, d, order) && (forall x <- ks :: x in m.pages) && j < |FlushWrites(m, ks)|
    ensures var ws := FlushWrites(m, ks);
            var home := HomeOf(CrashImage(ApplyAll(d, ws[..j]), ws[j], at), k);
            home.Some? ==> home == HomeOf(d, k) || home == Latest(m, d, k)
  {
    hide Inv, FlushWrites, ApplyAll;
    FlushSplit(m, ks, j);
    var front, key := ks[..j / 2], ks[j / 2];
    assert (forall x <- front :: x in ks) && key in ks;
    FlushKeeps(m, d, order, front);
    ApplyAllConcat(d, FlushWrites(m, front), FlushOne(m, key)[..j % 2]);
    ApplySome(m, ApplyAll(d, FlushWrites(m, front)), key, j % 2);
  }

  /** The disk between the two writes of one page. */
  lemma ApplySome(m: Mem, d: Disk, key: Key, n: nat)
    requires key in m.pages && n < 2
    ensures ApplyAll(d, FlushOne(m, key)[..n]) == if n == 0 then d else Apply(d, FlushOne(m, key)[0])
  {
    assert FlushOne(m, key)[..0] == [] && ApplyAll(d, []) == d;
    assert FlushOne(m, key)[..1] == [FlushOne(m, key)[0]];
    ApplyOne(d, FlushOne(m, key)[0]);
  }

  lemma LatestNotOlderThanHome(m: Mem, d: Disk, order: seq<Key>, k: Key)
    requires Inv(m, d, order) && HomeOf(d, k).Some?
    ensures Latest(m, d, k).Some? && HomeOf(d, k).value.stamp <= Latest(m, d, k).value.stamp
  {
  }

  lemma AddLeavesHomes(st: State, k: Key, p: Page, j: nat, at: Moment)
    requires j < |AddWrites(st.mem, k, p)|
    ensures CrashImage(ApplyAll(st.disk, AddWrites(st.mem, k, p)[..j]), AddWrites(st.mem, k, p)[j], at).homes
              == st.disk.homes
  {
    var ws := AddWrites(st.mem, k, p);
    assert ws[..0] == [] && ApplyAll(st.disk, []) == st.disk;
    if j == 1 {
      assert ws[..1] == [ws[0]];
      ApplyOne(st.disk, ws[0]);
    }
  }

  /** load_pages never loads a copy older than the one at home, although slots left over from before the
      last flush are still visible. */
  lemma LoadedNeverOlder(pages: map<Key, Page>, ops: seq<Op>, op: Op, j: nat, at: Moment, k: Key)
    requires LegalRun(Start(pages), ops) && Legal(RunAll(Start(pages), ops), op)
    requires j < |Issued(RunAll(Start(pages), ops), op)|
    ensures var img := CrashedIn(RunAll(Start(pages), ops), op, j, at);
            && Loadable(img)
            && (k in Loaded(img) && HomeOf(img, k).Some? ==>
                  HomeOf(img, k).value.stamp <= Loaded(img)[k].page.stamp)
  {
    hide Inv, ApplyAll, CrashImage, Loadable, Loaded;
    var order := RunInv(pages, ops);
    var st := RunAll(Start(pages), ops);
    var img := CrashedIn(st, op, j, at);
    match op
    case AddOp(key, p) =>
      AddCrash(st.mem, st.disk, order, key, p, j, at, k);
      AddLeavesHomes(st, key, p, j, at);
      if HomeOf(img, k).Some? {
        LatestNotOlderThanHome(st.mem, st.disk, order, k);
      }
    case FlushOp(ks) =>
      FlushCrash(st.mem, st.disk, order, ks, j, at, k);
      HomesDuringFlush(st.mem, st.disk, order, ks, j, at, k);
      if HomeOf(st.disk, k).Some? {
        LatestNotOlderThanHome(st.mem, st.disk, order, k);
      }
  }

  // ---------- The valid flag ----------

  /** A cached page that is not among the flushed ones has slot i. */
  ghost predicate Waiting(m: Mem, flushed: seq<Key>, i: int) {
    exists k <- m.pages :: k !in flushed && m.pages[k].index == i
  }

  /** A slot on disk is marked valid exactly while the page cached in it has not been flushed. */
  ghost predicate Flagged(m: Mem, d: Disk, flushed: seq<Key>) {
    forall i <- d.slots :: d.slots[i].Slot? && (d.slots[i].valid <==> Waiting(m, flushed, i))
  }

  lemma AddWaiting(m: Mem, key: Key, page: Page, i: int)
    ensures Waiting(AddMem(m, key, page), [], i) <==>
            Waiting(m, [], i) || i == if key in m.pages then m.pages[key].index else |m.pages|
  {
    var v := AddMem(m, key, page);
    if k :| k in m.pages && m.pages[k].index == i {
      assert k in v.pages && v.pages[k].index == i;
    }
    assert key in v.pages;
    if k :| k in v.pages && v.pages[k].index == i {
      assert k != key ==> k in m.pages && m.pages[k].index == i;
    }
  }

  lemma AddFlags(m: Mem, d: Disk, order: seq<Key>, key: Key, page: Page)
    requires Inv(m, d, order) && Flagged(m, d, [])
    ensures Flagged(AddMem(m, key, page), ApplyAll(d, AddWrites(m, key, page)), [])
  {
    hide Waiting, ApplyAll, SlotsHold, Visible, Fresher, HomesWhole;
    var at := if key in m.pages then m.pages[key].index else |m.pages|;
    if key in m.pages {
      ApplyOne(d, AddWrites(m, key, page)[0]);
    } else {
      MissWrites(m, d, order, key, page);
    }
    hide AddMem, AddWrites, Indexed;
    var e := ApplyAll(d, AddWrites(m, key, page));
    assert e.slots == d.slots[at := Slot(key, at, true, page)];
    forall i | i in e.slots
      ensures e.slots[i].Slot? && (e.slots[i].valid <==> Waiting(AddMem(m, key, page), [], i))
    {
      AddWaiting(m, key, page, i);
    }
  }

  lemma FlushWaiting(m: Mem, order: seq<Key>, ks: seq<Key>, key: Key, i: int)
    requires Indexed(m, order) && key in m.pages
    ensures Waiting(m, ks + [key], i) <==> Waiting(m, ks, i) && i != m.pages[key].index
  {
    if k :| k in m.pages && k !in ks && m.pages[k].index == i && i != m.pages[key].index {
      assert k !in ks + [key];
    }
    if k :| k in m.pages && k !in ks + [key] && m.pages[k].index == i {
      assert k !in ks && k in order && key in order;
      var a, b :| 0 <= a < |order| && order[a] == k && 0 <= b < |order| && order[b] == key;
      assert a != b;
    }
  }

  lemma FlushOneFlags(m: Mem, d: Disk, order: seq<Key>, ks: seq<Key>, key: Key)
    requires Indexed(m, order) && Flagged(m, d, ks) && key in m.pages
    ensures Flagged(m, ApplyAll(d, FlushOne(m, key)), ks + [key])
  {
    hide Waiting, ApplyAll, Indexed;
    var ws, at := FlushOne(m, key), m.pages[key].index;
    ApplyTwo(d, ws[0], ws[1]);
    var e := ApplyAll(d, ws);
    assert e.slots == d.slots[at := Slot(key, at, false, m.pages[key].page)];
    forall i | i in e.slots ensures e.slots[i].Slot? && (e.slots[i].valid <==> Waiting(m, ks + [key], i)) {
      FlushWaiting(m, order, ks, key, i);
    }
  }

  lemma {:induction false} FlushFlags(m: Mem, d: Disk, order: seq<Key>, ks: seq<Key>)
    requires Indexed(m, order) && Flagged(m, d, []) && forall k <- ks :: k in m.pages
    ensures Flagged(m, ApplyAll(d, FlushWrites(m, ks)), ks)
    decreases |ks|
  {
    hide Indexed, Flagged, FlushOne;
    if ks != [] {
      var front, key := ks[..|ks| - 1], ks[|ks| - 1];
      FlushFlags(m, d, order, front);
      ApplyAllConcat(d, FlushWrites(m, front), FlushOne(m, key));
      FlushOneFlags(m, ApplyAll(d, FlushWrites(m, front)), order, front, key);
      assert front + [key] == ks;
    }
  }

  /** After every run exactly the slots of the cached pages are marked valid. */
  lemma RunFlags(pages: map<Key, Page>, ops: seq<Op>)
    requires LegalRun(Start(pages), ops)
    ensures var st := RunAll(Start(pages), ops);
            forall i <- st.disk.slots ::
              && st.disk.slots[i].Slot?
              && (st.disk.slots[i].valid <==> exists k <- st.mem.pages :: st.mem.pages[k].index == i)
  {
    RunIsFlagged(pages, ops);
  }

  lemma {:induction false} RunIsFlagged(pages: map<Key, Page>, ops: seq<Op>)
    requires LegalRun(Start(pages), ops)
    ensures Flagged(RunAll(Start(pages), ops).mem, RunAll(Start(pages), ops).disk, [])
  {
    if ops != [] {
      var front := ops[..|ops| - 1];
      RunIsFlagged(pages, front);
      var order := RunInv(pages, front);
      var st := RunAll(Start(pages), front);
      match ops[|ops| - 1]
      case AddOp(key, p) => AddFlags(st.mem, st.disk, order, key, p);
      case FlushOp(ks) =>
        FlushFlags(st.mem, st.disk, order, ks);
        AllFlushed(st.mem, ApplyAll(st.disk, FlushWrites(st.mem, ks)), ks);
    }
  }

  lemma AllFlushed(m: Mem, d: Disk, ks: seq<Key>)
    requires Flagged(m, d, ks) && Covers(m, ks)
    ensures Flagged(EMPTY, d, [])
  {
  }
}
