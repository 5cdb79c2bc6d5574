/** One buffer pool instance over a disk. */
module BufferPool {
  import opened Types
  import opened Lru
  import opened PoolModel

  /** A frame of the pool, handed out to clients by reference. */
  class Page<D> {
    var data: D
    var pageId: PageId
    var pinCount: nat
    var isDirty: bool

    constructor (d: D)
      ensures data == d && pageId == INVALID_PAGE_ID && pinCount == 0 && !isDirty
    {
      data, pageId, pinCount, isDirty := d, INVALID_PAGE_ID, 0, false;
    }

    /** The frame takes another page, or none. */
    method Assign(d: D, id: PageId, count: nat)
      modifies this
      ensures data == d && pageId == id && pinCount == count && !isDirty
    {
      data := d;
      isDirty := false;
      pageId := id;
      pinCount := count;
    }
  }

  class BufferPoolManagerInstance<D(!new)> {
    const poolSize: nat
    const numInstances: nat
    const instanceIndex: nat
    const zero: D  // the contents of a page after ResetMemory
    const pages: seq<Page<D>>
    const replacer: LRUReplacer
    var nextPageId: nat
    var pageTable: map<PageId, FrameId>
    var freeList: seq<FrameId>
    var disk: map<PageId, D>  // what the disk manager has been told to write

    ghost var view: map<PageId, D>
    ghost var pins: multiset<PageId>
    ghost var debt: set<PageId>

    ghost function Frames(): seq<Frame<D>>
      reads pages
    {
      seq(|pages|, i requires 0 <= i < |pages| reads pages =>
        Frame(pages[i].data, pages[i].pageId, pages[i].pinCount, pages[i].isDirty))
    }

    ghost function State(): Pool<D>
      reads this, replacer, pages
    {
      Pool(Frames(), pageTable, freeList, replacer.Frames(), disk, view, pins, debt)
    }

    ghost predicate Fixed()
      reads replacer
    {
      && |pages| == poolSize
      && (forall i, j :: 0 <= i < j < |pages| ==> pages[i] != pages[j])
      && replacer.Valid() && replacer.numPages == poolSize
    }

    ghost predicate Valid()
      reads this, replacer, pages
    {
      Fixed() && IssuedIds(view.Keys, nextPageId, numInstances, instanceIndex) && PoolInv(State())
    }

    /** The frames, and a free list of all of them. */
    static method MakeFrames(size: nat, blank: D) returns (ps: seq<Page<D>>, free: seq<FrameId>)
      ensures |ps| == |free| == size
      ensures forall j: FrameId :: j < size ==>
                free[j] == j && fresh(ps[j]) && ps[j].pageId == INVALID_PAGE_ID && ps[j].pinCount == 0 && !ps[j].isDirty
      ensures forall j, k :: 0 <= j < k < size ==> ps[j] != ps[k]
    {
      ps, free := [], [];
      for i := 0 to size
        invariant |ps| == |free| == i
        invariant forall j: FrameId :: j < i ==>
                    && free[j] == j && fresh(ps[j])
                    && ps[j].pageId == INVALID_PAGE_ID && ps[j].pinCount == 0 && !ps[j].isDirty
        invariant forall j, k :: 0 <= j < k < i ==> ps[j] != ps[k]
      {
        var p := new Page(blank);
        ps := ps + [p];
        free := free + [i];
      }
    }

    constructor (size: nat, instances: nat, index: nat, blank: D)
      requires index < instances
      ensures Valid() && poolSize == size && numInstances == instances && instanceIndex == index && zero == blank
      ensures view == map[] && pins == multiset{} && debt == {}
      ensures fresh(replacer) && forall p :: p in pages ==> fresh(p)
      ensures forall i :: 0 <= i < |pages| ==> fresh(pages[i])
    {
      poolSize, numInstances, instanceIndex, zero := size, instances, index, blank;
      nextPageId := index;
      var ps, free := MakeFrames(size, blank);
      replacer := new LRUReplacer(size);
      pages, freeList := ps, free;
      pageTable, disk := map[], map[];
      view, pins, debt := map[], multiset{}, {};
      new;
      hide PoolInv, IssuedIds, Lru.Refines, Lru.Linked, Lru.FramesOf;
      StartsEmpty();
    }

    /** All frames free, and nothing issued. */
    lemma StartsEmpty()
      requires Fixed() && |freeList| == |pages| && nextPageId == instanceIndex < numInstances
      requires forall f: FrameId :: f < |pages| ==>
                 freeList[f] == f && pages[f].pageId == INVALID_PAGE_ID && pages[f].pinCount == 0 && !pages[f].isDirty
      requires pageTable == map[] && replacer.Frames() == []
      requires view == map[] && pins == multiset{} && debt == {}
      ensures Valid()
    {
      hide PoolInv, IssuedIds, Lru.Refines, Lru.Linked;
      NoneIssued(numInstances, instanceIndex);
      assert view.Keys == {};
      InitialInv(State());
    }

    /** Never more pages are pinned than there are frames. */
    lemma PinnedFit()
      requires Valid()
      ensures |PinnedIds(pins)| <= poolSize
    {
      NoFrameIffAllPinned(State());
    }

    /** Whoever holds the frame of a page sees its current contents there. */
    lemma HeldIsCurrent(page: Page<D>, id: PageId)
      requires Valid() && Holds(page, id)
      ensures id in view && page.data == view[id]
    {
      ResidentMeansRoom(State(), id);
    }

    // ---------- frames ----------

    /** What a frame's fields are, as a value. */
    ghost function At(f: FrameId): Frame<D>
      requires f < |pages|
      reads pages
    {
      Frame(pages[f].data, pages[f].pageId, pages[f].pinCount, pages[f].isDirty)
    }

    /** `page` is the frame that holds page `id`. */
    ghost predicate Holds(page: Page<D>, id: PageId)
      reads this`pageTable
    {
      id in pageTable && pageTable[id] < |pages| && pages[pageTable[id]] == page
    }

    /** Pinned pages stay where they are. */
    twostate predicate PinnedStay()
      reads this`pageTable, this`pins
    {
      forall id :: id in old(pins) && id in pins ==>
        id in old(pageTable) && id in pageTable && pageTable[id] == old(pageTable[id])
    }

    /** The state with frame `f`, which is in nobody's hands, counted as the last free frame. */
    ghost function WithSpare(f: FrameId): Pool<D>
      requires f < |pages|
      reads this, replacer, pages
    {
      var s := State();
      s.(frames := s.frames[f := Frame(pages[f].data, INVALID_PAGE_ID, 0, false)], free := s.free + [f])
    }

    /**
     The frame selection shared by `NewPgImp` and `FetchPgImp`: the free list first, then the replacer's victim, which
     is written back if dirty and leaves the page table.
     */
    method TakeFrame() returns (f: FrameId)
      requires Fixed() && PoolInv(State()) && (freeList != [] || replacer.Frames() != [])
      modifies this, replacer
      ensures Fixed() && f < |pages| && PoolInv(WithSpare(f))
      ensures old(freeList) != [] ==>
                && f == old(freeList)[|old(freeList)| - 1] && freeList == old(freeList)[..|old(freeList)| - 1]
                && pageTable == old(pageTable) && disk == old(disk) && replacer.history == old(replacer.history)
      ensures old(freeList) == [] ==>
                && Since(old(replacer.history), f).Some?
                && (forall g :: g != f && Since(old(replacer.history), g).Some? ==>
                      Since(old(replacer.history), f).value < Since(old(replacer.history), g).value)
                && freeList == [] && pageTable == old(pageTable) - {pages[f].pageId}
                && disk == (if pages[f].isDirty then old(disk)[pages[f].pageId := pages[f].data] else old(disk))
                && replacer.history == old(replacer.history) + [Evicted(f)]
      ensures view == old(view) && pins == old(pins) && debt == old(debt) && nextPageId == old(nextPageId)
      ensures disk.Keys >= old(disk).Keys
      ensures forall id :: id in pageTable ==> id in old(pageTable) && pageTable[id] == old(pageTable)[id]
      ensures forall id :: id in pins && id in old(pageTable) ==> id in pageTable
    {
      hide PoolInv, IssuedIds, Lru.Refines, Lru.Linked, Lru.FramesOf, Lru.Without, Lru.Distinct;
      ghost var s := State();
      if freeList != [] {
        LastFree(s);
        f := freeList[|freeList| - 1];
        freeList := freeList[..|freeList| - 1];
        assert Frames() == s.frames;
        assert WithSpare(f) == s;
      } else {
        ReleaseVictim(s);
        var ok;
        ok, f := replacer.Victim();
        if pages[f].isDirty {
          disk := disk[pages[f].pageId := pages[f].data];
        }
        pageTable := pageTable - {pages[f].pageId};
        assert Frames() == s.frames;
        assert WithSpare(f) == Released(s, f, pages[f].data);
      }
    }

    /** The second half of `NewPgImp` and of a missing `FetchPgImp`: the spare frame takes page `id`. */
    method Install(f: FrameId, id: PageId, d: D)
      requires Fixed() && f < |pages| && PoolInv(WithSpare(f))
      requires IssuedIds(view.Keys, nextPageId, numInstances, instanceIndex)
      requires id in view && id !in pageTable && id in disk && d == disk[id]
      modifies this`pageTable, this`pins, replacer, pages[f]
      ensures Valid() && Holds(pages[f], id) && pages[f].data == view[id]
      ensures pins == old(pins) + multiset{id}
      ensures pageTable == old(pageTable)[id := f]
      ensures replacer.history == old(replacer.history) + [Pinned(f)]
      ensures At(f) == Frame(d, id, 1, false)
    {
      hide PoolInv, IssuedIds, Lru.Refines, Lru.Linked, Lru.FramesOf, Lru.Distinct;
      ghost var s := WithSpare(f);
      InstallKeepsInv(s, id);
      SpareIsNotEvictable(s, f);
      pages[f].Assign(d, id, 1);
      replacer.Pin(f);
      pageTable := pageTable[id := f];
      pins := pins + multiset{id};
      assert State() == Installed(s, id, d);
      InstalledView(s, id, d);
    }

    /** A resident page is pinned where it is. */
    method PinResident(id: PageId) returns (page: Page<D>)
      requires Valid() && id in pageTable
      modifies this`pins, replacer, pages
      ensures Valid() && Holds(page, id) && id in view && page.data == view[id]
      ensures pins == old(pins) + multiset{id}
      ensures id in old(pins) || |PinnedIds(old(pins))| < poolSize
      ensures replacer.history == old(replacer.history) + [Pinned(pageTable[id])]
      ensures forall g: FrameId :: g < |pages| ==>
                At(g) == if g == pageTable[id] then old(At(g)).(pinCount := old(At(g)).pinCount + 1) else old(At(g))
    {
      hide PoolInv, IssuedIds, Lru.Refines, Lru.Linked, Lru.FramesOf, Lru.Without, Lru.Distinct;
      ghost var s := State();
      ResidentMeansRoom(s, id);
      PinKeepsInv(s, id);
      var f := pageTable[id];
      page := pages[f];
      page.pinCount := page.pinCount + 1;
      replacer.Pin(f);
      pins := pins + multiset{id};
      assert State() == PinnedAgain(s, id);
    }

    /** Brings an issued page in. Fails exactly when the page is not pinned and every frame is. */
    method FetchPgImp(id: PageId) returns (page: Page?<D>)
      requires Valid() && id in view
      modifies this, replacer, pages
      ensures Valid() && PinnedStay()
      ensures view == old(view) && debt == old(debt) && nextPageId == old(nextPageId)
      ensures page == null <==> id !in old(pins) && |PinnedIds(old(pins))| == poolSize
      ensures page == null ==> pins == old(pins)
      ensures page != null ==> pins == old(pins) + multiset{id} && Holds(page, id) && page.data == view[id]
      // Without a frame nothing changes.
      ensures page == null ==>
                && pageTable == old(pageTable) && freeList == old(freeList) && disk == old(disk)
                && replacer.history == old(replacer.history)
                && (forall g: FrameId :: g < |pages| ==> At(g) == old(At(g)))
      // A resident page gets one more pin where it is.
      ensures page != null && id in old(pageTable) ==>
                && pageTable == old(pageTable) && freeList == old(freeList) && disk == old(disk)
                && replacer.history == old(replacer.history) + [Pinned(pageTable[id])]
                && (forall g: FrameId :: g < |pages| ==>
                      At(g) == if g == pageTable[id] then old(At(g)).(pinCount := old(At(g)).pinCount + 1)
                               else old(At(g)))
      // Another one takes the last free frame, or else the frame that has been evictable longest.
      ensures page != null && id !in old(pageTable) ==>
                var f := pageTable[id];
                && f < |pages| && At(f) == Frame(view[id], id, 1, false)
                && (forall g: FrameId :: g < |pages| && g != f ==> At(g) == old(At(g)))
                && (old(freeList) != [] ==>
                      && f == old(freeList)[|old(freeList)| - 1] && freeList == old(freeList)[..|old(freeList)| - 1]
                      && pageTable == old(pageTable)[id := f] && disk == old(disk)
                      && replacer.history == old(replacer.history) + [Pinned(f)])
                && (old(freeList) == [] ==>
                      && Since(old(replacer.history), f).Some?
                      && (forall g :: g != f && Since(old(replacer.history), g).Some? ==>
                            Since(old(replacer.history), f).value < Since(old(replacer.history), g).value)
                      && freeList == [] && pageTable == (old(pageTable) - {old(At(f)).pageId})[id := f]
                      && disk == (if old(At(f)).isDirty then old(disk)[old(At(f)).pageId := old(At(f)).data]
                                  else old(disk))
                      && replacer.history == old(replacer.history) + [Evicted(f), Pinned(f)])
    {
      hide PoolInv, IssuedIds, Lru.Refines, Lru.Linked, Lru.FramesOf, Lru.Without, Lru.Distinct,
        BufferPoolManagerInstance.Holds;
      ghost var s := State();
      PinnedAreResident(s);
      if id in pageTable {
        page := PinResident(id);
        return;
      }
      NoFrameIffAllPinned(s);
      var evictable := replacer.Size();
      if evictable == 0 && |freeList| == 0 {
        return null;
      }
      var f := TakeFrame();
      OnDisk(WithSpare(f), id);
      Install(f, id, disk[id]);
      page := pages[f];
    }

    /** `AllocatePage`: hands out the counter and advances it by the number of instances. */
    method AllocatePage() returns (id: PageId)
      requires IssuedIds(view.Keys, nextPageId, numInstances, instanceIndex)
      modifies this`nextPageId
      ensures id == old(nextPageId) && nextPageId == id + numInstances && id % numInstances == instanceIndex
      ensures IssuedIds(view.Keys + {id}, nextPageId, numInstances, instanceIndex) && id !in view
    {
      IssueNext(view.Keys, nextPageId, numInstances, instanceIndex);
      id := nextPageId;
      nextPageId := nextPageId + numInstances;
    }

    /**
     The two checks at the head of `NewPgImp`: a scan for a frame without a pin, and a look at both lists. The second
     never fails after the first.
     */
    method NoFrame() returns (none: bool)
      requires Valid()
      ensures none <==> |PinnedIds(pins)| == poolSize
      ensures none <==> freeList == [] && replacer.Frames() == []
    {
      hide PoolInv, IssuedIds, Lru.Refines, Lru.Linked, Lru.FramesOf, PinnedIds;
      NoFrameIffAllPinned(State());
      var i := 0;
      while i < |pages| && pages[i].pinCount != 0
        invariant 0 <= i <= |pages|
        invariant forall j: FrameId :: j < i ==> State().frames[j].pinCount > 0
      {
        i := i + 1;
      }
      if i >= |pages| {
        return true;
      }
      assert State().frames[i].pinCount == 0;
      var evictable := replacer.Size();
      none := evictable == 0 && |freeList| == 0;
    }

    /**
     Issues a fresh page of zeros, pinned once. Fails exactly when every frame is pinned, and then no id is consumed.
     */
    method NewPgImp() returns (page: Page?<D>, id: PageId)
      requires Valid()
      modifies this, replacer, pages
      ensures Valid() && PinnedStay()
      ensures debt == old(debt)
      ensures page == null <==> |PinnedIds(old(pins))| == poolSize
      ensures page == null ==> view == old(view) && pins == old(pins) && nextPageId == old(nextPageId)
      ensures page != null ==>
                && id == old(nextPageId) && nextPageId == id + numInstances
                && id !in old(view) && id != INVALID_PAGE_ID
                && id !in old(pins) && id !in debt
                && view == old(view)[id := zero] && pins == old(pins) + multiset{id}
                && Holds(page, id) && page.data == zero
      // Without a frame nothing changes.
      ensures page == null ==>
                && pageTable == old(pageTable) && freeList == old(freeList) && disk == old(disk)
                && replacer.history == old(replacer.history)
                && (forall g: FrameId :: g < |pages| ==> At(g) == old(At(g)))
      // The page takes the last free frame, or else the frame that has been evictable longest.
      ensures page != null ==>
                var f := pageTable[id];
                && f < |pages| && At(f) == Frame(zero, id, 1, false)
                && (forall g: FrameId :: g < |pages| && g != f ==> At(g) == old(At(g)))
                && (old(freeList) != [] ==>
                      && f == old(freeList)[|old(freeList)| - 1] && freeList == old(freeList)[..|old(freeList)| - 1]
                      && pageTable == old(pageTable)[id := f] && disk == old(disk)[id := zero]
                      && replacer.history == old(replacer.history) + [Pinned(f)])
                && (old(freeList) == [] ==>
                      && Since(old(replacer.history), f).Some?
                      && (forall g :: g != f && Since(old(replacer.history), g).Some? ==>
                            Since(old(replacer.history), f).value < Since(old(replacer.history), g).value)
                      && freeList == [] && pageTable == (old(pageTable) - {old(At(f)).pageId})[id := f]
                      && disk == (if old(At(f)).isDirty then old(disk)[old(At(f)).pageId := old(At(f)).data]
                                  else old(disk))[id := zero]
                      && replacer.history == old(replacer.history) + [Evicted(f), Pinned(f)])
    {
      hide PoolInv, IssuedIds, Lru.Refines, Lru.Linked, Lru.FramesOf, Lru.Without, Lru.Distinct;
      ghost var s := State();
      PinnedAreResident(s);
      PinnedAreIssued(s);
      id := INVALID_PAGE_ID;
      var none := NoFrame();
      if none {
        return null, id;
      }
      id := AllocatePage();
      assert State() == s;
      var f := Place(id);
      page := pages[f];
    }

    /** The second half of `NewPgImp`: the new page gets a frame, and its zeros also go to disk. */
    method Place(id: PageId) returns (f: FrameId)
      requires Fixed() && PoolInv(State()) && (freeList != [] || replacer.Frames() != [])
      requires IssuedIds(view.Keys + {id}, nextPageId, numInstances, instanceIndex)
      requires id !in view && id != INVALID_PAGE_ID
      modifies this, replacer, pages
      ensures Valid() && PinnedStay() && nextPageId == old(nextPageId) && debt == old(debt)
      ensures f < |pages| && id in pageTable && pageTable[id] == f && At(f) == Frame(zero, id, 1, false)
      ensures forall g: FrameId :: g < |pages| && g != f ==> At(g) == old(At(g))
      ensures old(freeList) != [] ==>
                && f == old(freeList)[|old(freeList)| - 1] && freeList == old(freeList)[..|old(freeList)| - 1]
                && pageTable == old(pageTable)[id := f] && disk == old(disk)[id := zero]
                && replacer.history == old(replacer.history) + [Pinned(f)]
      ensures old(freeList) == [] ==>
                && Since(old(replacer.history), f).Some?
                && (forall g :: g != f && Since(old(replacer.history), g).Some? ==>
                      Since(old(replacer.history), f).value < Since(old(replacer.history), g).value)
                && freeList == [] && pageTable == (old(pageTable) - {old(At(f)).pageId})[id := f]
                && disk == (if old(At(f)).isDirty then old(disk)[old(At(f)).pageId := old(At(f)).data]
                            else old(disk))[id := zero]
                && replacer.history == old(replacer.history) + [Evicted(f), Pinned(f)]
      ensures view == old(view)[id := zero] && pins == old(pins) + multiset{id}
    {
      hide PoolInv, IssuedIds, Lru.Refines, Lru.Linked, Lru.FramesOf, Lru.Without, Lru.Distinct,
        PageOk, LRUReplacer.Valid;
      PinnedAreResident(State());
      f := TakeFrame();
      IssueKeepsInv(WithSpare(f), id, zero);
      // The write to disk at the end of the source; nothing reads the disk in between.
      ghost var ids := view.Keys;
      view := view[id := zero];
      assert view.Keys == ids + {id};
      disk := disk[id := zero];
      Install(f, id, zero);
    }

    /** The frame of page `id` will be written back, or its disk copy is current. */
    ghost predicate IsSaved(id: PageId)
      reads this, pages
    {
      && id in pageTable && pageTable[id] < |pages|
      && (pages[pageTable[id]].isDirty || (id in disk && pages[pageTable[id]].data == disk[id]))
    }

    /**
     Drops one pin. The client's side of the protocol: whoever drops the last pin on a page that was written passes
     `isDirty`, unless the page is saved anyway, because another holder has passed it, or a flush has come in between.
     Without a pin to drop the call fails; it may still mark a resident page dirty.
     */
    method UnpinPgImp(id: PageId, isDirty: bool) returns (ok: bool)
      requires Valid()
      requires !isDirty && id in debt ==> pins[id] > 1 || IsSaved(id)
      modifies this, replacer, pages
      ensures Valid() && PinnedStay()
      ensures view == old(view) && nextPageId == old(nextPageId)
      ensures ok <==> id in old(pins)
      ensures pins == if ok then old(pins) - multiset{id} else old(pins)
      ensures debt == if id in old(debt) && (isDirty || old(pins)[id] == 1) then old(debt) - {id} else old(debt)
      ensures pageTable == old(pageTable) && freeList == old(freeList) && disk == old(disk)
      // Only the frame of the page changes: its dirty flag may go up, and a pin may come off.
      ensures forall g: FrameId :: g < |pages| ==>
                At(g) == if id in pageTable && g == pageTable[id]
                         then old(At(g)).(isDirty := old(At(g)).isDirty || isDirty,
                                          pinCount := if ok then old(pins)[id] - 1 else 0)
                         else old(At(g))
      // With the last pin it goes to the replacer.
      ensures ok ==> id in pageTable
      ensures replacer.history ==
              old(replacer.history) + (if ok && old(pins)[id] == 1 then [Unpinned(pageTable[id])] else [])
    {
      hide PoolInv, IssuedIds, Lru.Refines, Lru.Linked, Lru.FramesOf, Lru.Without, Lru.Distinct;
      ghost var s := State();
      PinnedAreResident(s);
      PinnedAreIssued(s);
      if id == INVALID_PAGE_ID || id !in pageTable {
        InvalidNotResident(s);
        return false;
      }
      ResidentMeansRoom(s, id);
      var f := pageTable[id];
      if isDirty {
        MarkKeepsInv(s, id);
        pages[f].isDirty := isDirty;
        debt := debt - {id};
        assert State() == Marked(s, id);
      }
      if pages[f].pinCount == 0 {
        return false;
      }
      DropPin(id, f);
      ok := true;
    }

    /** The last lines of an unpin: with the last pin, the frame goes to the replacer, which has room for it. */
    method DropPin(id: PageId, f: FrameId)
      requires Valid() && id in pageTable && pageTable[id] == f < |pages| && pages[f].pinCount > 0
      requires id in debt ==> pins[id] > 1 || IsSaved(id)
      modifies this`pins, this`debt, replacer, pages[f]
      ensures Valid()
      ensures pins == old(pins) - multiset{id}
      ensures debt == if id in old(debt) && old(pins)[id] == 1 then old(debt) - {id} else old(debt)
      ensures old(pins)[id] == old(At(f)).pinCount && At(f) == old(At(f)).(pinCount := old(At(f)).pinCount - 1)
      ensures replacer.history == old(replacer.history) + (if old(pins)[id] == 1 then [Unpinned(f)] else [])
    {
      hide PoolInv, IssuedIds, Lru.Refines, Lru.Linked, Lru.FramesOf, Lru.Without, Lru.Distinct, PinnedIds;
      ghost var s := State();
      ResidentMeansRoom(s, id);
      LastPinBelowCapacity(s, id);
      UnpinKeepsInv(s, id);
      pages[f].pinCount := pages[f].pinCount - 1;
      if pages[f].pinCount == 0 {
        var blocked := replacer.Unpin(f);
        assert !blocked;
        if id in debt {
          debt := debt - {id};
        }
      }
      pins := pins - multiset{id};
      assert State() == OnePinLess(s, id);
    }

    /** A client writes a page it holds pinned, through the reference it was given. */
    method Write(page: Page<D>, id: PageId, d: D)
      requires Valid() && id in pins && Holds(page, id)
      modifies this`view, this`debt, page
      ensures Valid() && Holds(page, id) && page.data == d
      ensures view == old(view)[id := d]
      ensures debt == old(debt) + {id}
    {
      hide PoolInv, IssuedIds, Lru.Refines, Lru.Linked, Lru.FramesOf, Lru.Without, Lru.Distinct;
      ghost var s := State();
      PinnedIsResident(s, id);
      WriteKeepsInv(s, id, d);
      page.data := d;
      view := view[id := d];
      debt := debt + {id};
      assert view.Keys == old(view).Keys;
      assert State() == Written(s, id, d);
    }

    method FlushPgImp(id: PageId) returns (ok: bool)
      requires Valid()
      modifies this`disk
      ensures Valid()
      ensures ok <==> id in pageTable
      ensures ok ==> id in view && disk == old(disk)[id := view[id]]
      ensures !ok ==> disk == old(disk)
    {
      hide PoolInv, IssuedIds, Lru.Refines, Lru.Linked, Lru.FramesOf, Lru.Without, Lru.Distinct;
      ghost var s := State();
      if id == INVALID_PAGE_ID || id !in pageTable {
        InvalidNotResident(s);
        return false;
      }
      ResidentMeansRoom(s, id);
      FlushKeepsInv(s, pageTable[id]);
      disk := disk[id := pages[pageTable[id]].data];
      assert State() == Flushed(s, pageTable[id]);
      ok := true;
    }

    /** Afterwards the disk has the current contents of every issued page. */
    method FlushAllPgsImp()
      requires Valid()
      modifies this`disk
      ensures Valid()
      ensures forall id :: id in view ==> id in disk && disk[id] == view[id]
      ensures disk.Keys <= old(disk).Keys + view.Keys + {INVALID_PAGE_ID}
    {
      hide PoolInv, IssuedIds, Lru.Refines, Lru.Linked, Lru.FramesOf, Lru.Without, Lru.Distinct;
      ghost var s := State();
      for i := 0 to |pages|
        invariant Valid() && State() == s.(disk := disk)
        invariant FlushedBelow(State(), i)
        invariant disk.Keys <= old(disk).Keys + view.Keys + {INVALID_PAGE_ID}
      {
        ghost var before := State();
        FlushKeepsInv(before, i);
        FlushedStep(before, i);
        FreeOrIssued(before, i);
        disk := disk[pages[i].pageId := pages[i].data];
        assert State() == Flushed(before, i);
      }
      AllFlushed(State());
    }

    /** Drops an unpinned page from the pool; the disk keeps its contents, so the view does not change. */
    method DeletePgImp(id: PageId) returns (ok: bool)
      requires Valid()
      modifies this, replacer, pages
      ensures Valid() && PinnedStay()
      ensures view == old(view) && pins == old(pins) && debt == old(debt) && nextPageId == old(nextPageId)
      ensures ok <==> id !in pins
      ensures ok ==> id !in pageTable
      ensures !ok || id !in old(pageTable) ==>
                && pageTable == old(pageTable) && freeList == old(freeList) && disk == old(disk)
                && replacer.history == old(replacer.history)
                && (forall g: FrameId :: g < |pages| ==> At(g) == old(At(g)))
      // A resident page is written back if dirty, and its frame, zeroed, becomes the last free one.
      ensures ok && id in old(pageTable) ==>
                var f := old(pageTable)[id];
                && f < |pages| && pageTable == old(pageTable) - {id} && freeList == old(freeList) + [f]
                && disk == (if old(At(f)).isDirty then old(disk)[id := old(At(f)).data] else old(disk))
                && replacer.history == old(replacer.history) + [Pinned(f)]
                && At(f) == Frame(zero, INVALID_PAGE_ID, 0, false)
                && (forall g: FrameId :: g < |pages| && g != f ==> At(g) == old(At(g)))
    {
      hide PoolInv, IssuedIds, Lru.Refines, Lru.Linked, Lru.FramesOf, Lru.Without, Lru.Distinct,
        LRUReplacer.Frames, PageOk, FrameOk, ListsOk;
      ghost var s := State();
      PinnedAreResident(s);
      if id !in pageTable {
        return true;
      }
      UnpinnedIsEvictable(s, id);
      var f := pageTable[id];
      if pages[f].pinCount > 0 {
        return false;
      }
      ReleaseKeepsInv(s, f, zero);
      if pages[f].isDirty {
        disk := disk[pages[f].pageId := pages[f].data];
      }
      pages[f].Assign(zero, INVALID_PAGE_ID, 0);
      replacer.Pin(f);
      freeList := freeList + [f];
      pageTable := pageTable - {id};
      assert State() == Released(s, f, zero);
      ok := true;
    }
  }
}
