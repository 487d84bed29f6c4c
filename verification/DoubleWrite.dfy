/** The double-write buffer of src/dimserver/storage/buffer/double_write_buffer.cpp as a protocol over
    disk writes.

    Every operation is the sequence of writes it issues.  Writes take effect in program order; a crash
    lets the write in flight happen, not happen, or tear; the small header write does not tear; and a
    torn slot fails its checksum while a whole one passes.
 */
module DoubleWrite {
  import opened Bytes
  import opened Options
  import opened ReturnCode

  datatype Key = Key(bufferPoolId: Int32, pageNum: Int32)

  /** A page image; `stamp` numbers the versions of a page. */
  datatype Page = Page(stamp: nat, data: seq<Byte>)

  /** DoubleWritePage in memory: its slot number and the page. */
  datatype Cached = Cached(index: int, page: Page)

  /** dblwr_pages_ and header_.page_cnt. */
  datatype Mem = Mem(pages: map<Key, Cached>, count: int)

  const EMPTY := Mem(map[], 0)

  /** A page at its home position in its own file. */
  datatype Cell = Whole(page: Page) | Torn

  /** A DoubleWritePage on disk.  `load_pages` does not look at `valid`. */
  datatype Slot = Slot(key: Key, index: int, valid: bool, page: Page) | TornSlot

  datatype Disk = Disk(homes: map<Key, Cell>, slots: map<int, Slot>, count: int)

  datatype Write =
    | PutSlot(at: int, slot: Slot)
    | PutCount(count: int)
    | PutHome(key: Key, page: Page)

  function Apply(d: Disk, w: Write): Disk {
    match w
    case PutSlot(i, s) => d.(slots := d.slots[i := s])
    case PutCount(n) => d.(count := n)
    case PutHome(k, p) => d.(homes := d.homes[k := Whole(p)])
  }

  function ApplyAll(d: Disk, ws: seq<Write>): Disk {
    if ws == [] then d else Apply(ApplyAll(d, ws[..|ws| - 1]), ws[|ws| - 1])
  }

  lemma ApplyOne(d: Disk, a: Write)
    ensures ApplyAll(d, [a]) == Apply(d, a)
  {
    assert [a][..0] == [] && ApplyAll(d, []) == d;
  }

  lemma ApplyTwo(d: Disk, a: Write, b: Write)
    ensures ApplyAll(d, [a, b]) == Apply(Apply(d, a), b)
  {
    assert [a, b][..1] == [a];
    ApplyOne(d, a);
  }

  /** When the crash comes, relative to the write in flight. */
  datatype Moment = Before | During | After

  function CrashImage(d: Disk, w: Write, m: Moment): Disk {
    match m
    case Before => d
    case After => Apply(d, w)
    case During =>
      match w
      case PutSlot(i, _) => d.(slots := d.slots[i := TornSlot])
      case PutHome(k, _) => d.(homes := d.homes[k := Torn])
      case PutCount(_) => d
  }

  /** What the system answers to a write: done, or failed with an error code after the write has happened,
      not happened, or torn. */
  datatype Outcome = Done | Failed(rc: RC, at: Moment)

  function Effect(d: Disk, w: Write, o: Outcome): Disk {
    if o.Done? then Apply(d, w) else CrashImage(d, w, o.at)
  }

  /** Writes with their outcomes, in program order. */
  function EffectAll(d: Disk, ws: seq<Write>, io: nat -> Outcome): Disk {
    if ws == [] then d else Effect(EffectAll(d, ws[..|ws| - 1], io), ws[|ws| - 1], io(|ws| - 1))
  }

  lemma {:induction false} EffectAllDone(d: Disk, ws: seq<Write>, io: nat -> Outcome)
    requires forall i :: 0 <= i < |ws| ==> io(i).Done?
    ensures EffectAll(d, ws, io) == ApplyAll(d, ws)
  {
    if ws != [] {
      EffectAllDone(d, ws[..|ws| - 1], io);
    }
  }

  /** Writes of which only the last one fails leave a crash image. */
  lemma EffectLastFailed(d: Disk, ws: seq<Write>, io: nat -> Outcome)
    requires ws != [] && (forall i :: 0 <= i < |ws| - 1 ==> io(i).Done?) && io(|ws| - 1).Failed?
    ensures EffectAll(d, ws, io) == CrashImage(ApplyAll(d, ws[..|ws| - 1]), ws[|ws| - 1], io(|ws| - 1).at)
  {
    EffectAllDone(d, ws[..|ws| - 1], io);
  }

  // ---------- The operations ----------

  function AddMem(m: Mem, key: Key, page: Page): Mem {
    if key in m.pages then m.(pages := m.pages[key := m.pages[key].(page := page)])
    else
      var n := |m.pages|;
      Mem(m.pages[key := Cached(n, page)], if n + 1 > m.count then n + 1 else m.count)
  }

  function AddWrites(m: Mem, key: Key, page: Page): seq<Write> {
    if key in m.pages then [PutSlot(m.pages[key].index, Slot(key, m.pages[key].index, true, page))]
    else
      var n := |m.pages|;
      [PutSlot(n, Slot(key, n, true, page))] + if n + 1 > m.count then [PutCount(n + 1)] else []
  }

  /** The page count grows to the number of cached pages, never shrinks, and is written to disk, after the
      slot, exactly when it has changed. */
  lemma CountFollows(m: Mem, key: Key, page: Page)
    ensures var v, ws := AddMem(m, key, page), AddWrites(m, key, page);
            && v.count == (if key !in m.pages && |m.pages| + 1 > m.count then |m.pages| + 1 else m.count)
            && (if v.count != m.count then |ws| == 2 && ws[1] == PutCount(v.count) else |ws| == 1)
            && key in v.pages && ws[0] == PutSlot(v.pages[key].index, Slot(key, v.pages[key].index, true, page))
  {
  }

  /** The two writes flush_page issues for one cached page. */
  function FlushOne(m: Mem, k: Key): seq<Write>
    requires k in m.pages
  {
    var c := m.pages[k];
    [PutHome(k, c.page), PutSlot(c.index, Slot(k, c.index, false, c.page))]
  }

  /** flush_page, visiting the pages in the order `ks` of the hash map. */
  function FlushWrites(m: Mem, ks: seq<Key>): seq<Write>
    requires forall k <- ks :: k in m.pages
  {
    if ks == [] then [] else FlushWrites(m, ks[..|ks| - 1]) + FlushOne(m, ks[|ks| - 1])
  }

  // ---------- Loading after a crash ----------

  predicate Loadable(d: Disk) {
    forall i :: 0 <= i < d.count ==> i in d.slots
  }

  /** The loop of load_pages over the first n slots: torn slots are skipped, and the first slot of a key
      stays. */
  function Load(d: Disk, n: nat): map<Key, Cached>
    requires forall i :: 0 <= i < n ==> i in d.slots
  {
    if n == 0 then map[]
    else
      var m := Load(d, n - 1);
      match d.slots[n - 1]
      case TornSlot => m
      case Slot(k, i, _, p) => if k in m then m else m[k := Cached(i, p)]
  }

  function Loaded(d: Disk): map<Key, Cached>
    requires Loadable(d)
  {
    Load(d, if d.count < 0 then 0 else d.count)
  }

  function HomeOf(d: Disk, k: Key): Option<Page> {
    if k in d.homes && d.homes[k].Whole? then Some(d.homes[k].page) else None
  }

  /** The copy of a page that recovery has: the loaded one, else a whole one at home. */
  function Recovered(d: Disk, k: Key): Option<Page>
    requires Loadable(d)
  {
    if k in Loaded(d) then Some(Loaded(d)[k].page) else HomeOf(d, k)
  }

  /** The current contents of a page: cached, else at home. */
  function Latest(m: Mem, d: Disk, k: Key): Option<Page> {
    if k in m.pages then Some(m.pages[k].page) else HomeOf(d, k)
  }

  // ---------- The invariant between writes ----------

  /** `order` lists the cached keys by slot. */
  ghost predicate Indexed(m: Mem, order: seq<Key>) {
    && m.count == |m.pages| == |order|
    && (forall k :: k in m.pages <==> k in order)
    && (forall i :: 0 <= i < |order| ==> m.pages[order[i]].index == i)
  }

  ghost predicate SlotsHold(m: Mem, d: Disk, order: seq<Key>)
    requires Indexed(m, order)
  {
    forall i :: 0 <= i < |order| ==> i in d.slots && Holds(d.slots[i], order[i], m.pages[order[i]])
  }

  predicate Holds(s: Slot, k: Key, c: Cached) {
    s.Slot? && s.key == k && s.index == c.index && s.page == c.page
  }

  ghost predicate HomesWhole(d: Disk) {
    forall k <- d.homes :: d.homes[k].Whole?
  }

  /** A slot left over from before the last flush: it repeats its page's home copy. */
  predicate Stale(d: Disk, i: int) {
    i in d.slots && d.slots[i].Slot? && d.slots[i].key in d.homes && d.homes[d.slots[i].key] == Whole(d.slots[i].page)
  }

  /** The visible slots are the cached pages, or all stale when nothing is cached. */
  ghost predicate Visible(m: Mem, d: Disk) {
    if |m.pages| > 0 then d.count == |m.pages|
    else forall i :: 0 <= i < d.count ==> Stale(d, i)
  }

  /** No cached page is older than its home copy. */
  ghost predicate Fresher(m: Mem, d: Disk) {
    forall k <- m.pages :: k in d.homes && d.homes[k].Whole? ==> d.homes[k].page.stamp <= m.pages[k].page.stamp
  }

  ghost predicate Inv(m: Mem, d: Disk, order: seq<Key>) {
    Indexed(m, order) && SlotsHold(m, d, order) && HomesWhole(d) && Visible(m, d) && Fresher(m, d)
  }

  // ---------- Facts about loading ----------

  lemma {:induction false} LoadComesFrom(d: Disk, n: nat, k: Key)
    requires forall i :: 0 <= i < n ==> i in d.slots
    requires k in Load(d, n)
    ensures exists i :: 0 <= i < n && d.slots[i].Slot? && d.slots[i].key == k
                        && Load(d, n)[k] == Cached(d.slots[i].index, d.slots[i].page)
  {
    if n > 0 && k in Load(d, n - 1) {
      LoadComesFrom(d, n - 1, k);
    }
  }

  lemma {:induction false} LoadFinds(d: Disk, n: nat, i: nat)
    requires i < n && forall j :: 0 <= j < n ==> j in d.slots
    requires d.slots[i].Slot?
    ensures d.slots[i].key in Load(d, n)
  {
    if i < n - 1 {
      LoadFinds(d, n - 1, i);
    }
  }

  /** If every visible slot of a key carries the same page, that page is loaded. */
  lemma LoadAgrees(d: Disk, k: Key, p: Page)
    requires Loadable(d)
    requires forall i :: 0 <= i < d.count && d.slots[i].Slot? && d.slots[i].key == k ==> d.slots[i].page == p
    ensures k in Loaded(d) ==> Loaded(d)[k].page == p
  {
    if k in Loaded(d) {
      LoadComesFrom(d, d.count, k);
    }
  }

  /** A key no visible slot carries is not loaded. */
  lemma LoadMisses(d: Disk, k: Key)
    requires Loadable(d)
    requires forall i :: 0 <= i < d.count ==> !(d.slots[i].Slot? && d.slots[i].key == k)
    ensures k !in Loaded(d)
  {
    if k in Loaded(d) {
      LoadComesFrom(d, d.count, k);
    }
  }

  /** When all visible slots but slot x hold the cached pages, every key but the owner of x recovers its
      latest copy, and the owner falls back on its home copy if x is torn. */
  lemma RecoverByOrder(m: Mem, d: Disk, order: seq<Key>, k: Key)
    requires Indexed(m, order) && |order| > 0 && d.count == |order|
    requires forall i :: 0 <= i < |order| && order[i] != k ==>
              i in d.slots && (d.slots[i].Slot? ==> d.slots[i].key == order[i])
    requires k in order ==> m.pages[k].index in d.slots
    requires k in order && d.slots[m.pages[k].index].Slot? ==> Holds(d.slots[m.pages[k].index], k, m.pages[k])
    ensures Loadable(d)
    ensures Recovered(d, k)
              == if k in order && d.slots[m.pages[k].index].Slot? then Some(m.pages[k].page) else HomeOf(d, k)
  {
    forall i | 0 <= i < |order| ensures i in d.slots {
      assert order[i] == k ==> m.pages[k].index == i;
    }
    if k in order && d.slots[m.pages[k].index].Slot? {
      var i :| 0 <= i < |order| && order[i] == k;
      LoadFinds(d, d.count, i);
      forall j | 0 <= j < d.count && d.slots[j].Slot? && d.slots[j].key == k
        ensures d.slots[j].page == m.pages[k].page
      {
        assert order[j] == k ==> j == i;
      }
      LoadAgrees(d, k, m.pages[k].page);
    } else {
      forall j | 0 <= j < d.count ensures !(d.slots[j].Slot? && d.slots[j].key == k) {
        assert order[j] == k ==> m.pages[k].index == j;
      }
      LoadMisses(d, k);
    }
  }

  /** With nothing but stale copies visible, and perhaps a torn slot, every key has its home copy. */
  lemma RecoverStale(d: Disk, k: Key)
    requires forall i :: 0 <= i < d.count ==> Stale(d, i) || (i in d.slots && d.slots[i].TornSlot?)
    ensures Loadable(d) && Recovered(d, k) == HomeOf(d, k)
  {
    if k in Loaded(d) {
      LoadComesFrom(d, d.count, k);
    }
  }

  /** Between writes every page can be recovered as it is. */
  lemma InvRecovers(m: Mem, d: Disk, order: seq<Key>, k: Key)
    requires Inv(m, d, order)
    ensures Loadable(d) && Recovered(d, k) == Latest(m, d, k)
  {
    if |order| > 0 {
      RecoverByOrder(m, d, order, k);
    } else {
      RecoverStale(d, k);
    }
  }

  // ---------- add_page, write by write ----------

  lemma {:induction false} LoadFirst(d: Disk, n: nat)
    requires n > 0 && forall i :: 0 <= i < n ==> i in d.slots
    requires d.slots[0].Slot?
    ensures d.slots[0].key in Load(d, n) && Load(d, n)[d.slots[0].key].page == d.slots[0].page
  {
    if n == 1 {
      assert Load(d, 0) == map[];
    } else {
      LoadFirst(d, n - 1);
    }
  }

  lemma HitDone(m: Mem, d: Disk, order: seq<Key>, key: Key, page: Page, k: Key)
    requires Inv(m, d, order) && key in m.pages
    ensures var img := Apply(d, AddWrites(m, key, page)[0]);
            Loadable(img) && Recovered(img, k) == if k == key then Some(page) else Latest(m, d, k)
  {
    var img := Apply(d, AddWrites(m, key, page)[0]);
    var i :| 0 <= i < |order| && order[i] == key;
    var v := AddMem(m, key, page);
    assert v.pages.Keys == m.pages.Keys;
    assert |v.pages.Keys| == |v.pages|;
    RecoverByOrder(v, img, order, k);
    hide Recovered, Loadable;
  }

  lemma HitTorn(m: Mem, d: Disk, order: seq<Key>, key: Key, page: Page, k: Key)
    requires Inv(m, d, order) && key in m.pages
    ensures var img := CrashImage(d, AddWrites(m, key, page)[0], During);
            Loadable(img) && Recovered(img, k) == if k == key then HomeOf(d, key) else Latest(m, d, k)
  {
    var img := CrashImage(d, AddWrites(m, key, page)[0], During);
    var i :| 0 <= i < |order| && order[i] == key;
    RecoverByOrder(m, img, order, k);
    hide Recovered, Loadable;
  }

  /** Overwriting the slot of a cached page in place. */
  lemma HitCrash(m: Mem, d: Disk, order: seq<Key>, key: Key, page: Page, at: Moment, k: Key)
    requires Inv(m, d, order) && key in m.pages
    ensures var img := CrashImage(d, AddWrites(m, key, page)[0], at);
            Loadable(img) && Recovered(img, k) ==
            if k != key || at.Before? then Latest(m, d, k) else if at.After? then Some(page) else HomeOf(d, key)
  {
    InvRecovers(m, d, order, k);
    HitDone(m, d, order, key, page, k);
    HitTorn(m, d, order, key, page, k);
    hide Inv, Recovered, Loadable, Latest, HomeOf;
  }

  lemma HitKeeps(m: Mem, d: Disk, order: seq<Key>, key: Key, page: Page)
    requires Inv(m, d, order) && key in m.pages && m.pages[key].page.stamp <= page.stamp
    ensures Inv(AddMem(m, key, page), ApplyAll(d, AddWrites(m, key, page)), order)
    ensures ApplyAll(d, AddWrites(m, key, page)).homes == d.homes
  {
    hide ApplyAll;
    ApplyOne(d, AddWrites(m, key, page)[0]);
    var i :| 0 <= i < |order| && order[i] == key;
    var v := AddMem(m, key, page);
    assert v.pages.Keys == m.pages.Keys;
    assert |v.pages.Keys| == |v.pages|;
  }

  /** A new page's slot, written before the header counts it. */
  lemma NewSlotCrash(m: Mem, d: Disk, order: seq<Key>, key: Key, page: Page, at: Moment, k: Key)
    requires Inv(m, d, order) && key !in m.pages
    ensures var img := CrashImage(d, AddWrites(m, key, page)[0], at);
            && Loadable(img)
            && (Recovered(img, k) == Latest(m, d, k) || (k == key && at.After? && Recovered(img, k) == Some(page)))
  {
    var img := CrashImage(d, AddWrites(m, key, page)[0], at);
    if |order| > 0 {
      RecoverByOrder(m, img, order, k);
    } else if at.Before? {
      InvRecovers(m, d, order, k);
    } else if at.During? {
      forall i | 0 <= i < img.count ensures Stale(img, i) || (i in img.slots && img.slots[i].TornSlot?) {
        assert Stale(d, i);
      }
      RecoverStale(img, k);
    } else {
      FirstSlotNew(d, key, page, img, k);
    }
  }

  /** The one moment in which a new page and left-over slots are visible together. */
  lemma FirstSlotNew(d: Disk, key: Key, page: Page, img: Disk, k: Key)
    requires forall i :: 0 <= i < d.count ==> Stale(d, i)
    requires img == d.(slots := d.slots[0 := Slot(key, 0, true, page)])
    ensures Loadable(img)
    ensures Recovered(img, k) == HomeOf(d, k) || (k == key && Recovered(img, k) == Some(page))
  {
    forall i | 0 <= i < d.count ensures i in img.slots {
      assert Stale(d, i);
    }
    if k in Loaded(img) {
      LoadFirst(img, d.count);
      LoadComesFrom(img, d.count, k);
      var i :| 0 <= i < d.count && img.slots[i].Slot? && img.slots[i].key == k
               && Loaded(img)[k] == Cached(img.slots[i].index, img.slots[i].page);
      assert Stale(d, i);
    }
  }

  lemma MissIndexed(m: Mem, order: seq<Key>, key: Key, page: Page)
    requires Indexed(m, order) && key !in m.pages
    ensures AddMem(m, key, page) == Mem(m.pages[key := Cached(|m.pages|, page)], |m.pages| + 1)
    ensures Indexed(AddMem(m, key, page), order + [key])
  {
    var v := AddMem(m, key, page);
    assert v.pages.Keys == m.pages.Keys + {key};
    assert |v.pages.Keys| == |v.pages|;
  }

  lemma MissWrites(m: Mem, d: Disk, order: seq<Key>, key: Key, page: Page)
    requires Indexed(m, order) && key !in m.pages
    ensures var n := |m.pages|;
            && AddWrites(m, key, page) == [PutSlot(n, Slot(key, n, true, page)), PutCount(n + 1)]
            && ApplyAll(d, AddWrites(m, key, page))
                == d.(slots := d.slots[n := Slot(key, n, true, page)], count := n + 1)
            && AddMem(m, key, page) == Mem(m.pages[key := Cached(n, page)], n + 1)
            && Indexed(AddMem(m, key, page), order + [key])
  {
    var n := |m.pages|;
    MissIndexed(m, order, key, page);
    ApplyTwo(d, PutSlot(n, Slot(key, n, true, page)), PutCount(n + 1));
    assert m.count == n;
    hide ApplyAll, Indexed, AddMem;
  }

  lemma MissKeeps(m: Mem, d: Disk, order: seq<Key>, key: Key, page: Page)
    requires Inv(m, d, order) && key !in m.pages
    requires HomeOf(d, key).Some? ==> HomeOf(d, key).value.stamp <= page.stamp
    ensures Inv(AddMem(m, key, page), ApplyAll(d, AddWrites(m, key, page)), order + [key])
    ensures ApplyAll(d, AddWrites(m, key, page)).homes == d.homes
  {
    hide ApplyAll, AddWrites, AddMem;
    MissWrites(m, d, order, key, page);
  }

  ghost predicate NotOlder(m: Mem, d: Disk, key: Key, page: Page) {
    Latest(m, d, key).Some? ==> Latest(m, d, key).value.stamp <= page.stamp
  }

  function OrderAfterAdd(m: Mem, order: seq<Key>, key: Key): seq<Key> {
    if key in m.pages then order else order + [key]
  }

  lemma AddKeeps(m: Mem, d: Disk, order: seq<Key>, key: Key, page: Page)
    requires Inv(m, d, order) && NotOlder(m, d, key, page)
    ensures Inv(AddMem(m, key, page), ApplyAll(d, AddWrites(m, key, page)), OrderAfterAdd(m, order, key))
    ensures ApplyAll(d, AddWrites(m, key, page)).homes == d.homes
  {
    hide Inv, ApplyAll, AddMem;
    if key in m.pages {
      HitKeeps(m, d, order, key, page);
    } else {
      MissKeeps(m, d, order, key, page);
    }
  }

  /** A crash at any point of add_page(key, page): other pages are as they were; the page itself is
      either as it was or already the new one, unless the crash tears the overwrite of its slot in
      place, in which case it falls back on its home copy. */
  lemma AddCrash(m: Mem, d: Disk, order: seq<Key>, key: Key, page: Page, j: nat, at: Moment, k: Key)
    requires Inv(m, d, order) && NotOlder(m, d, key, page)
    requires j < |AddWrites(m, key, page)|
    ensures var ws := AddWrites(m, key, page);
            var img := CrashImage(ApplyAll(d, ws[..j]), ws[j], at);
            && Loadable(img)
            && (k != key ==> Recovered(img, k) == Latest(m, d, k))
            && (k == key && key in m.pages && at.During? ==> Recovered(img, k) == HomeOf(d, k))
            && (k == key && !(key in m.pages && at.During?) ==>
                  Recovered(img, k) == Latest(m, d, k) || Recovered(img, k) == Some(page))
  {
    var ws := AddWrites(m, key, page);
    assert ws[..0] == [] && ApplyAll(d, []) == d;
    if key in m.pages {
      HitCrash(m, d, order, key, page, at, k);
    } else if j == 0 {
      NewSlotCrash(m, d, order, key, page, at, k);
    } else {
      SecondWriteCrash(m, d, order, key, page, at, k);
    }
  }

  lemma SecondWriteCrash(m: Mem, d: Disk, order: seq<Key>, key: Key, page: Page, at: Moment, k: Key)
    requires Inv(m, d, order) && key !in m.pages && NotOlder(m, d, key, page)
    requires |AddWrites(m, key, page)| > 1
    ensures var ws := AddWrites(m, key, page);
            var img := CrashImage(ApplyAll(d, ws[..1]), ws[1], at);
            && Loadable(img)
            && (Recovered(img, k) == Latest(m, d, k) || (k == key && Recovered(img, k) == Some(page)))
  {
    var ws := AddWrites(m, key, page);
    MissWrites(m, d, order, key, page);
    MissKeeps(m, d, order, key, page);
    assert ws[..1] == [ws[0]];
    ApplyOne(d, ws[0]);
    ApplyTwo(d, ws[0], ws[1]);
    if at.After? {
      InvRecovers(AddMem(m, key, page), ApplyAll(d, ws), order + [key], k);
    } else {
      NewSlotCrash(m, d, order, key, page, After, k);
    }
  }

  // ---------- flush_page, write by write ----------

  lemma HomeWrite(m: Mem, d: Disk, order: seq<Key>, key: Key, at: Moment, k: Key)
    requires Inv(m, d, order) && key in m.pages
    ensures var w := PutHome(key, m.pages[key].page);
            && Loadable(CrashImage(d, w, at)) && Recovered(CrashImage(d, w, at), k) == Latest(m, d, k)
            && Inv(m, Apply(d, w), order) && Latest(m, Apply(d, w), k) == Latest(m, d, k)
  {
    RecoverByOrder(m, CrashImage(d, PutHome(key, m.pages[key].page), at), order, k);
  }

  lemma SlotRewrite(m: Mem, d: Disk, order: seq<Key>, key: Key, at: Moment, k: Key)
    requires Inv(m, d, order) && key in m.pages
    requires key in d.homes && d.homes[key] == Whole(m.pages[key].page)
    ensures var w := FlushOne(m, key)[1];
            && Loadable(CrashImage(d, w, at)) && Recovered(CrashImage(d, w, at), k) == Latest(m, d, k)
            && Inv(m, Apply(d, w), order) && Latest(m, Apply(d, w), k) == Latest(m, d, k)
  {
    var i :| 0 <= i < |order| && order[i] == key;
    RecoverByOrder(m, CrashImage(d, FlushOne(m, key)[1], at), order, k);
  }

  lemma {:induction false} ApplyAllConcat(d: Disk, a: seq<Write>, b: seq<Write>)
    ensures ApplyAll(d, a + b) == ApplyAll(ApplyAll(d, a), b)
    decreases |b|
  {
    if b == [] {
      assert a + b == a;
    } else {
      assert (a + b)[..|a + b| - 1] == a + b[..|b| - 1];
      ApplyAllConcat(d, a, b[..|b| - 1]);
    }
  }

  lemma FlushOneKeeps(m: Mem, d: Disk, order: seq<Key>, key: Key)
    requires Inv(m, d, order) && key in m.pages
    ensures var e := ApplyAll(d, FlushOne(m, key));
            && Inv(m, e, order) && e.count == d.count
            && e.homes == d.homes[key := Whole(m.pages[key].page)]
  {
    var ws := FlushOne(m, key);
    ApplyTwo(d, ws[0], ws[1]);
    HomeWrite(m, d, order, key, Before, key);
    SlotRewrite(m, Apply(d, ws[0]), order, key, Before, key);
  }

  /** After the pages in `ks` are flushed: they are home, and nothing else has changed its value. */
  lemma {:induction false} FlushKeeps(m: Mem, d: Disk, order: seq<Key>, ks: seq<Key>)
    requires Inv(m, d, order) && forall k <- ks :: k in m.pages
    ensures var e := ApplyAll(d, FlushWrites(m, ks));
            && Inv(m, e, order) && e.count == d.count
            && (forall k <- ks :: k in e.homes && e.homes[k] == Whole(m.pages[k].page))
            && (forall k :: k !in ks ==> HomeOf(e, k) == HomeOf(d, k))
    decreases |ks|
  {
    hide Inv, FlushOne;
    if ks != [] {
      var front, key := ks[..|ks| - 1], ks[|ks| - 1];
      FlushKeeps(m, d, order, front);
      ApplyAllConcat(d, FlushWrites(m, front), FlushOne(m, key));
      FlushOneKeeps(m, ApplyAll(d, FlushWrites(m, front)), order, key);
      assert forall k <- ks :: k in front || k == key;
      assert key in ks && forall k <- front :: k in ks;
    }
  }

  lemma FlushKeepsLatest(m: Mem, d: Disk, order: seq<Key>, ks: seq<Key>, k: Key)
    requires Inv(m, d, order) && forall x <- ks :: x in m.pages
    ensures Latest(m, ApplyAll(d, FlushWrites(m, ks)), k) == Latest(m, d, k)
  {
    FlushKeeps(m, d, order, ks);
    if k !in m.pages {
      assert k !in ks;
    }
  }

  lemma {:induction false} FlushSplit(m: Mem, ks: seq<Key>, j: nat)
    requires forall k <- ks :: k in m.pages
    ensures |FlushWrites(m, ks)| == 2 * |ks|
    ensures j < 2 * |ks| ==> FlushWrites(m, ks)[..j] == FlushWrites(m, ks[..j / 2]) + FlushOne(m, ks[j / 2])[..j % 2]
    ensures j < 2 * |ks| ==> FlushWrites(m, ks)[j] == FlushOne(m, ks[j / 2])[j % 2]
    decreases |ks|
  {
    if ks != [] {
      var front, key := ks[..|ks| - 1], ks[|ks| - 1];
      FlushSplit(m, front, j);
      var ws := FlushWrites(m, front);
      if j >= 2 * |ks| {
      } else if j < 2 * |front| {
        assert front[..j / 2] == ks[..j / 2];
        assert (ws + FlushOne(m, key))[..j] == ws[..j];
      } else {
        assert ks[..j / 2] == front;
        assert (ws + FlushOne(m, key))[..j] == ws + FlushOne(m, key)[..j % 2];
      }
    }
  }

  /** A crash at any point of flush_page leaves every page as it was. */
  lemma FlushCrash(m: Mem, d: Disk, order: seq<Key>, ks: seq<Key>, j: nat, at: Moment, k: Key)
    requires Inv(m, d, order) && (forall x <- ks :: x in m.pages) && j < |FlushWrites(m, ks)|
    ensures var ws := FlushWrites(m, ks);
            var img := CrashImage(ApplyAll(d, ws[..j]), ws[j], at);
            Loadable(img) && Recovered(img, k) == Latest(m, d, k)
  {
    hide Inv, Latest, Loadable, Recovered, CrashImage;
    FlushSplit(m, ks, j);
    var front, key := ks[..j / 2], ks[j / 2];
    var e := ApplyAll(d, FlushWrites(m, front));
    assert (forall x <- front :: x in ks) && key in ks;
    FlushKeeps(m, d, order, front);
    FlushKeepsLatest(m, d, order, front, k);
    ApplyAllConcat(d, FlushWrites(m, front), FlushOne(m, key)[..j % 2]);
    HomeWrite(m, e, order, key, at, k);
    if j % 2 == 0 {
      assert FlushOne(m, key)[..0] == [] && ApplyAll(e, []) == e;
    } else {
      assert FlushOne(m, key)[..1] == [FlushOne(m, key)[0]];
      ApplyOne(e, FlushOne(m, key)[0]);
      SlotRewrite(m, Apply(e, FlushOne(m, key)[0]), order, key, at, k);
    }
  }

  /** `ks` visits every cached page. */
  ghost predicate Covers(m: Mem, ks: seq<Key>) {
    forall k :: k in m.pages <==> k in ks
  }

  /** flush_page empties the buffer; what is left in the slots only repeats the home copies. */
  lemma FlushEmpties(m: Mem, d: Disk, order: seq<Key>, ks: seq<Key>)
    requires Inv(m, d, order) && Covers(m, ks)
    ensures var e := ApplyAll(d, FlushWrites(m, ks));
            Inv(EMPTY, e, []) && forall k :: Latest(EMPTY, e, k) == Latest(m, d, k)
  {
    FlushKeeps(m, d, order, ks);
    var e := ApplyAll(d, FlushWrites(m, ks));
    forall k ensures Latest(EMPTY, e, k) == Latest(m, d, k) {
      FlushKeepsLatest(m, d, order, ks, k);
    }
    if |order| > 0 {
      forall i | 0 <= i < e.count ensures Stale(e, i) {
        assert order[i] in m.pages && order[i] in ks;
      }
    } else {
      assert forall k <- ks :: k in order;
      assert ks == [];
    }
  }

  // ---------- Failed writes ----------

  /** A write of add_page fails and the program stops: every page is recovered as after a crash at that
      write. */
  lemma FailedAddRecovers(m: Mem, d: Disk, order: seq<Key>, key: Key, page: Page, n: nat, io: nat -> Outcome, k: Key)
    requires Inv(m, d, order) && NotOlder(m, d, key, page) && n < |AddWrites(m, key, page)|
    requires (forall i :: 0 <= i < n ==> io(i).Done?) && io(n).Failed?
    ensures var img := EffectAll(d, AddWrites(m, key, page)[..n + 1], io);
            && Loadable(img)
            && (k != key ==> Recovered(img, k) == Latest(m, d, k))
            && (k == key && key in m.pages && io(n).at.During? ==> Recovered(img, k) == HomeOf(d, key))
            && (k == key && !(key in m.pages && io(n).at.During?) ==>
                  Recovered(img, k) == Latest(m, d, k) || Recovered(img, k) == Some(page))
  {
    var ws := AddWrites(m, key, page);
    EffectLastFailed(d, ws[..n + 1], io);
    assert ws[..n + 1][..n] == ws[..n];
    AddCrash(m, d, order, key, page, n, io(n).at, k);
    hide Inv, Recovered, Loadable, Latest, HomeOf, AddWrites, CrashImage, ApplyAll, EffectAll;
  }

  /** flush_page stops at the home page of `key`: no page has changed. */
  lemma FailedFlushRecovers(m: Mem, d: Disk, order: seq<Key>, ks: seq<Key>, key: Key, io: nat -> Outcome, k: Key)
    requires Inv(m, d, order) && key in m.pages && forall x <- ks :: x in m.pages
    requires (forall i :: 0 <= i < 2 * |ks| ==> io(i).Done?) && io(2 * |ks|).Failed?
    ensures var img := EffectAll(d, FlushWrites(m, ks) + [PutHome(key, m.pages[key].page)], io);
            Loadable(img) && Recovered(img, k) == Latest(m, d, k)
  {
    var all, ws, w := ks + [key], FlushWrites(m, ks), PutHome(key, m.pages[key].page);
    FlushSplit(m, ks, 0);
    EffectLastFailed(d, ws + [w], io);
    assert (ws + [w])[..|ws|] == ws;
    assert all[..|ks|] == ks && FlushWrites(m, all) == ws + FlushOne(m, key);
    assert FlushWrites(m, all)[..|ws|] == ws && FlushWrites(m, all)[|ws|] == w;
    FlushCrash(m, d, order, all, |ws|, io(2 * |ks|).at, k);
    hide Inv, Recovered, Loadable, Latest, CrashImage, ApplyAll, EffectAll, FlushWrites;
  }
}
