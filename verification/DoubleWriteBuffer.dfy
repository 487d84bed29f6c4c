/** DiskDoubleWriteBuffer: the calls issue exactly the writes of `DoubleWrite`, and stop where the source
    stops when one of them fails. */
module DoubleWriteBuffer {
  import opened Bytes
  import opened ReturnCode
  import opened DoubleWrite

  /** The double-write file and the page files. */
  class Storage {
    var image: Disk

    method Issue(w: Write, o: Outcome)
      modifies this
      ensures image == Effect(old(image), w, o)
    {
      image := Effect(image, w, o);
    }
  }

  /** The answers after the first n ones. */
  function Later(io: nat -> Outcome, n: nat): nat -> Outcome {
    (i: nat) => io(n + i)
  }

  /** A failed write reports a failure. */
  ghost predicate Reported(io: nat -> Outcome) {
    forall i :: io(i).Failed? ==> io(i).rc.IsFail()
  }

  class DiskDoubleWriteBuffer {
    const storage: Storage
    const maxPages: Int32
    var fd: int
    /** dblwr_pages_ */
    var pages: map<Key, Cached>
    /** header_.page_cnt */
    var count: int

    function Memory(): Mem
      reads this
    {
      Mem(pages, count)
    }

    constructor (s: Storage, max: Int32)
      ensures storage == s && maxPages == max && fd == -1 && Memory() == EMPTY
    {
      storage, maxPages := s, max;
      fd, pages, count := -1, map[], 0;
    }

    /** write_page_internal: the slot at the page's own index. */
    method WriteSlot(key: Key, valid: bool, o: Outcome)
      requires key in pages
      modifies storage
      ensures storage.image ==
              Effect(old(storage.image),
                     PutSlot(pages[key].index, Slot(key, pages[key].index, valid, pages[key].page)), o)
    {
      var c := pages[key];
      storage.Issue(PutSlot(c.index, Slot(key, c.index, valid, c.page)), o);
    }

    /** Writes every cached page home, marks its slot, and empties the buffer; the page count is reset in
        memory only.  A home page that cannot be written ends the call with the buffer as it was; the
        answer to a slot write is not looked at.  `order` lists the pages that are home, `issued` the
        writes. */
    method FlushPage(io: nat -> Outcome) returns (rc: RC, ghost order: seq<Key>, ghost issued: seq<Write>)
      requires Reported(io)
      modifies this, storage
      ensures fd == old(fd) && storage.image == EffectAll(old(storage.image), issued, io)
      ensures Flushed(old(Memory()), order, io)
      ensures rc == SUCCESS ==>
                Memory() == EMPTY && Covers(old(Memory()), order) && |order| == |old(pages)|
                && issued == FlushWrites(old(Memory()), order)
      ensures rc != SUCCESS ==> Memory() == old(Memory()) && Stopped(Memory(), order, issued, io, rc)
      ensures rc != SUCCESS ==> io(2 * |order|).Failed? && rc == io(2 * |order|).rc
    {
      order, issued := [], [];
      ghost var m, image0 := Memory(), storage.image;
      var todo := pages.Keys;
      var n: nat := 0;
      ProgressStart(m, image0, io);
      hide Reported, Progress, Flushed, Stopped, Halted, EffectAll, FlushWrites, Covers, Effect;
      while todo != {}
        invariant Memory() == m && fd == old(fd) && n == 2 * |order|
        invariant Progress(m, image0, order, todo, io, storage.image)
        decreases |todo|
      {
        var key :| key in todo;
        ProgressNext(m, image0, order, todo, io, storage.image, key);
        storage.Issue(PutHome(key, pages[key].page), io(n));
        if io(n).Failed? {
          issued := FlushWrites(m, order) + [PutHome(key, pages[key].page)];
          AnswerFails(io, n);
          HaltedStops(m, image0, order, key, io, storage.image);
          return io(n).rc, order, issued;
        }
        WriteSlot(key, false, io(n + 1));
        order := order + [key];
        todo := todo - {key};
        n := n + 2;
      }
      ProgressEnd(m, image0, order, io, storage.image);
      issued := FlushWrites(m, order);
      pages, count := map[], 0;
      rc := SUCCESS;
    }

    /** Caches the page, writes its slot, writes the page count when it has grown, and flushes a full
        buffer; the first of these that fails ends the call. */
    method AddPage(key: Key, page: Page, io: nat -> Outcome)
      returns (rc: RC, ghost order: seq<Key>, ghost issued: seq<Write>)
      requires Reported(io)
      modifies this, storage
      ensures fd == old(fd)
      ensures io(0).Failed? ==>
                rc == io(0).rc && Memory() == AddMem(old(Memory()), key, page).(count := old(count))
                && storage.image == EffectAll(old(storage.image), AddWrites(old(Memory()), key, page)[..1], io)
      ensures io(0).Done? && |AddWrites(old(Memory()), key, page)| > 1 && io(1).Failed? ==>
                rc == io(1).rc && Memory() == AddMem(old(Memory()), key, page)
                && storage.image == EffectAll(old(storage.image), AddWrites(old(Memory()), key, page), io)
      ensures io(0).Done? && (|AddWrites(old(Memory()), key, page)| > 1 ==> io(1).Done?) ==>
                var m, ws := AddMem(old(Memory()), key, page), AddWrites(old(Memory()), key, page);
                var image, later := ApplyAll(old(storage.image), ws), Later(io, |ws|);
                if key in old(pages) || |m.pages| < maxPages then
                  rc == SUCCESS && Memory() == m && storage.image == image
                else
                  && storage.image == EffectAll(image, issued, later) && Flushed(m, order, later)
                  && (rc == SUCCESS ==> Memory() == EMPTY && Covers(m, order) && issued == FlushWrites(m, order))
                  && (rc != SUCCESS ==> Memory() == m && Stopped(m, order, issued, later, rc))
    {
      hide ApplyAll, FlushWrites, EffectAll, Stopped, Flushed;
      order, issued := [], [];
      ghost var m0, image0 := Memory(), storage.image;
      AddEffects(m0, image0, key, page, io);
      if key in pages {
        pages := pages[key := pages[key].(page := page)];
        WriteSlot(key, true, io(0));
        return if io(0).Failed? then io(0).rc else SUCCESS, order, issued;
      }
      var pageCnt := |pages|;
      pages := pages[key := Cached(pageCnt, page)];
      WriteSlot(key, true, io(0));
      if io(0).Failed? {
        return io(0).rc, order, issued;
      }
      var done := 1;
      if pageCnt + 1 > count {
        count := pageCnt + 1;
        storage.Issue(PutCount(count), io(1));
        if io(1).Failed? {
          return io(1).rc, order, issued;
        }
        done := 2;
      }
      if |pages| >= maxPages {
        ReportedLater(io, done);
        rc, order, issued := FlushPage(Later(io, done));
        return rc, order, issued;
      }
      rc := SUCCESS;
    }

    /** Reads the page count and then that many slots, keeping the whole ones; the first slot of a key
        stays.  `io` says how seeking and reading go: -1 for the header, n for slot n.  `upTo` slots were
        read. */
    method LoadPages(io: int -> RC) returns (rc: RC, ghost upTo: nat)
      modifies this
      ensures fd == old(fd)
      ensures old(fd) < 0 || old(pages) != map[] ==> rc == BUFFERPOOL_OPENED && Memory() == old(Memory())
      ensures old(fd) >= 0 && old(pages) == map[] ==>
                if io(-1) != SUCCESS then rc == io(-1) && Memory() == old(Memory())
                else LoadedUpTo(storage.image, io, upTo, rc, Memory())
      ensures old(fd) >= 0 && old(pages) == map[] && io(-1) == SUCCESS ==>
                && (forall i :: 0 <= i < upTo ==> i in storage.image.slots && io(i) == SUCCESS)
                && pages == Load(storage.image, upTo) && count == storage.image.count
                && (rc == SUCCESS ==> upTo == if count < 0 then 0 else count)
                && (rc != SUCCESS && io(upTo) == SUCCESS ==> upTo !in storage.image.slots && rc == IOERR_READ)
                && (rc != SUCCESS && io(upTo) != SUCCESS ==> rc == io(upTo))
    {
      upTo := 0;
      if fd < 0 {
        return BUFFERPOOL_OPENED, upTo;
      }
      if pages != map[] {
        return BUFFERPOOL_OPENED, upTo;
      }
      if io(-1) != SUCCESS {
        return io(-1), upTo;
      }
      count := storage.image.count;
      var n := 0;
      while n < count
        invariant 0 <= n && (n <= count || n == 0) && count == storage.image.count && fd == old(fd) && upTo == n
        invariant forall i :: 0 <= i < n ==> i in storage.image.slots && io(i) == SUCCESS
        invariant pages == Load(storage.image, n)
      {
        if io(n) != SUCCESS {
          return io(n), upTo;
        }
        if n !in storage.image.slots {
          // the file ends before the slot does
          return IOERR_READ, upTo;
        }
        match storage.image.slots[n] {
          case Slot(key, index, _, page) =>
            if key !in pages {
              pages := pages[key := Cached(index, page)];
            }
          case TornSlot =>
        }
        n := n + 1;
        upTo := n;
      }
      rc := SUCCESS;
    }

    /** open_file: `handle` is what open(2) returned. */
    method OpenFile(handle: int, io: int -> RC) returns (rc: RC, ghost upTo: nat)
      modifies this
      ensures old(fd) >= 0 ==> rc == BUFFERPOOL_OPENED && Memory() == old(Memory()) && fd == old(fd)
      ensures old(fd) < 0 && handle < 0 ==> rc == SCHEMA_DB_EXIST && Memory() == old(Memory()) && fd == old(fd)
      ensures old(fd) < 0 && handle >= 0 ==> fd == handle
      ensures old(fd) < 0 && handle >= 0 && old(pages) != map[] ==> rc == BUFFERPOOL_OPENED && Memory() == old(Memory())
      ensures old(fd) < 0 && handle >= 0 && old(pages) == map[] ==>
                if io(-1) != SUCCESS then rc == io(-1) && Memory() == old(Memory())
                else LoadedUpTo(storage.image, io, upTo, rc, Memory())
    {
      upTo := 0;
      if fd >= 0 {
        return BUFFERPOOL_OPENED, upTo;
      }
      if handle < 0 {
        return SCHEMA_DB_EXIST, upTo;
      }
      fd := handle;
      rc, upTo := LoadPages(io);
    }
  }

  /** The pages in `order` are cached ones, each once, and their home writes were answered with success. */
  ghost predicate Flushed(m: Mem, order: seq<Key>, io: nat -> Outcome) {
    && (forall k <- order :: k in m.pages)
    && (forall i, j :: 0 <= i < j < |order| ==> order[i] != order[j])
    && (forall i: nat :: i < |order| ==> io(2 * i).Done?)
  }

  /** The cached pages not yet in `order`. */
  function Left(m: Mem, order: seq<Key>): set<Key> {
    set k | k in m.pages && k !in order
  }

  /** The loop of flush_page has written the pages in `order`; those in `todo` are left. */
  ghost predicate Progress(m: Mem, d: Disk, order: seq<Key>, todo: set<Key>, io: nat -> Outcome, image: Disk) {
    && todo == Left(m, order) && |order| + |todo| == |m.pages|
    && Flushed(m, order, io) && image == EffectAll(d, FlushWrites(m, order), io)
  }

  lemma ProgressStart(m: Mem, d: Disk, io: nat -> Outcome)
    ensures Progress(m, d, [], m.pages.Keys, io, d)
  {
    assert |m.pages.Keys| == |m.pages|;
  }

  /** The next home write fails, or both its writes are issued. */
  lemma ProgressNext(m: Mem, d: Disk, order: seq<Key>, todo: set<Key>, io: nat -> Outcome, image: Disk, key: Key)
    requires Progress(m, d, order, todo, io, image) && key in todo
    ensures key in m.pages && (forall k <- order :: k in m.pages) && Flushed(m, order, io)
    ensures var c := m.pages[key];
            var n, written := 2 * |order|, Effect(image, PutHome(key, c.page), io(2 * |order|));
            && (io(n).Failed? ==> Halted(m, d, order, key, io, written))
            && (io(n).Done? ==>
                  Progress(m, d, order + [key], todo - {key}, io,
                           Effect(written, PutSlot(c.index, Slot(key, c.index, false, c.page)), io(n + 1))))
  {
    FlushOneMore(m, d, order, key, io);
    LeftNext(m, order, key);
    FlushedNext(m, order, io, key);
    assert Flushed(m, order, io);
    hide Flushed, Effect, EffectAll, FlushWrites, Left;
  }

  lemma LeftNext(m: Mem, order: seq<Key>, key: Key)
    ensures key in Left(m, order) ==>
              Left(m, order + [key]) == Left(m, order) - {key} && |Left(m, order + [key])| == |Left(m, order)| - 1
    ensures key in Left(m, order) ==> key in m.pages && key !in order
  {
    if key in Left(m, order) {
      assert Left(m, order + [key]) == Left(m, order) - {key};
    }
  }

  /** The home write of `key` was the last one. */
  ghost predicate Halted(m: Mem, d: Disk, order: seq<Key>, key: Key, io: nat -> Outcome, image: Disk)
    requires key in m.pages && forall k <- order :: k in m.pages
  {
    && image == EffectAll(d, FlushWrites(m, order) + [PutHome(key, m.pages[key].page)], io)
    && key !in order
  }

  lemma HaltedStops(m: Mem, d: Disk, order: seq<Key>, key: Key, io: nat -> Outcome, image: Disk)
    requires key in m.pages && forall k <- order :: k in m.pages
    requires Halted(m, d, order, key, io, image) && io(2 * |order|).Failed?
    ensures image == EffectAll(d, FlushWrites(m, order) + [PutHome(key, m.pages[key].page)], io)
    ensures Stopped(m, order, FlushWrites(m, order) + [PutHome(key, m.pages[key].page)], io, io(2 * |order|).rc)
  {
  }

  lemma FlushedNext(m: Mem, order: seq<Key>, io: nat -> Outcome, key: Key)
    ensures Flushed(m, order, io) && key in m.pages && key !in order && io(2 * |order|).Done? ==>
              Flushed(m, order + [key], io)
  {
  }

  lemma ProgressEnd(m: Mem, d: Disk, order: seq<Key>, io: nat -> Outcome, image: Disk)
    requires Progress(m, d, order, {}, io, image)
    ensures Covers(m, order) && |order| == |m.pages| && Flushed(m, order, io)
    ensures (forall k <- order :: k in m.pages) && image == EffectAll(d, FlushWrites(m, order), io)
  {
    forall k ensures k in m.pages <==> k in order {
      assert k !in Left(m, order);
    }
  }

  /** A flush that stopped at the home write of one more page. */
  ghost predicate Stopped(m: Mem, order: seq<Key>, issued: seq<Write>, io: nat -> Outcome, rc: RC)
    requires forall k <- order :: k in m.pages
  {
    exists key <- m.pages :: key !in order
                             && issued == FlushWrites(m, order) + [PutHome(key, m.pages[key].page)]
                             && io(2 * |order|).Failed? && rc == io(2 * |order|).rc
  }

  /** One of the writes of add_page itself fails. */
  predicate AddFails(m: Mem, key: Key, page: Page, io: nat -> Outcome) {
    io(0).Failed? || (|AddWrites(m, key, page)| > 1 && io(1).Failed?)
  }

  /** Loading read the slots before `upTo`: all of them, or up to the first that cannot be read. */
  ghost predicate LoadedUpTo(d: Disk, io: int -> RC, upTo: nat, rc: RC, now: Mem) {
    && (forall i :: 0 <= i < upTo ==> i in d.slots && io(i) == SUCCESS)
    && now == Mem(Load(d, upTo), d.count)
    && (if rc == SUCCESS then upTo == (if d.count < 0 then 0 else d.count)
        else upTo < d.count && if io(upTo) != SUCCESS then rc == io(upTo) else upTo !in d.slots && rc == IOERR_READ)
  }

  /** Without errors, loading succeeds exactly on a loadable image, and loads what recovery uses. */
  lemma CleanLoad(d: Disk, io: int -> RC, upTo: nat, rc: RC, now: Mem)
    requires (forall i :: io(i) == SUCCESS) && LoadedUpTo(d, io, upTo, rc, now)
    ensures rc == SUCCESS <==> Loadable(d)
    ensures rc == SUCCESS ==> now == Mem(Loaded(d), d.count)
  {
  }

  lemma AnswerFails(io: nat -> Outcome, n: nat)
    requires Reported(io)
    ensures io(n).Failed? ==> io(n).rc != SUCCESS
  {
  }

  lemma ReportedLater(io: nat -> Outcome, n: nat)
    requires Reported(io)
    ensures Reported(Later(io, n))
  {
    forall i: nat ensures Later(io, n)(i).Failed? ==> Later(io, n)(i).rc.IsFail() {
      AnswerFails(io, n + i);
    }
  }

  lemma EffectOne(d: Disk, w: Write, io: nat -> Outcome)
    ensures EffectAll(d, [w], io) == Effect(d, w, io(0))
  {
    assert [w][..0] == [] && EffectAll(d, [], io) == d;
  }

  /** The disk after the writes of add_page. */
  lemma AddEffects(m: Mem, d: Disk, key: Key, page: Page, io: nat -> Outcome)
    ensures var ws := AddWrites(m, key, page);
            && 1 <= |ws| <= 2
            && EffectAll(d, ws[..1], io) == Effect(d, ws[0], io(0))
            && (|ws| == 1 ==> ws[..1] == ws)
            && (|ws| == 2 ==> EffectAll(d, ws, io) == Effect(Effect(d, ws[0], io(0)), ws[1], io(1)))
            && (!AddFails(m, key, page, io) ==> ApplyAll(d, ws) == EffectAll(d, ws, io))
  {
    var ws := AddWrites(m, key, page);
    assert ws[..1] == [ws[0]];
    EffectOne(d, ws[0], io);
    if !AddFails(m, key, page, io) {
      EffectAllDone(d, ws, io);
    }
  }

  lemma EffectSnoc(d: Disk, ws: seq<Write>, w: Write, io: nat -> Outcome)
    ensures EffectAll(d, ws + [w], io) == Effect(EffectAll(d, ws, io), w, io(|ws|))
  {
    assert (ws + [w])[..|ws|] == ws;
    hide Effect;
  }

  lemma FlushWritesSnoc(m: Mem, order: seq<Key>, key: Key)
    requires (forall k <- order :: k in m.pages) && key in m.pages
    ensures var ws, c := FlushWrites(m, order), m.pages[key];
            && |ws| == 2 * |order|
            && FlushWrites(m, order + [key])
               == ws + [PutHome(key, c.page)] + [PutSlot(c.index, Slot(key, c.index, false, c.page))]
  {
    FlushSplit(m, order, 0);
    assert (order + [key])[..|order|] == order;
  }

  /** The two writes for one more page. */
  lemma FlushOneMore(m: Mem, d: Disk, order: seq<Key>, key: Key, io: nat -> Outcome)
    requires (forall k <- order :: k in m.pages) && key in m.pages
    ensures var ws, c := FlushWrites(m, order), m.pages[key];
            var home, slot := PutHome(key, c.page), PutSlot(c.index, Slot(key, c.index, false, c.page));
            && EffectAll(d, ws + [home], io) == Effect(EffectAll(d, ws, io), home, io(2 * |order|))
            && EffectAll(d, FlushWrites(m, order + [key]), io)
               == Effect(Effect(EffectAll(d, ws, io), home, io(2 * |order|)), slot, io(2 * |order| + 1))
  {
    var ws, c := FlushWrites(m, order), m.pages[key];
    var home, slot := PutHome(key, c.page), PutSlot(c.index, Slot(key, c.index, false, c.page));
    FlushWritesSnoc(m, order, key);
    EffectSnoc(d, ws, home, io);
    EffectSnoc(d, ws + [home], slot, io);
    hide EffectAll, Effect, FlushWrites;
  }
}
