/**
 The buffer pool as a value, its invariant, and what each elementary change does to it. `view` is what a client sees:
 the contents of every issued page, wherever they are. `pins` counts the pins on each page. `debt` holds the pages
 that some holder of a pin has written without an unpin with `is_dirty` set since: whoever wrote them still owes that
 unpin.
 */
module PoolModel {
  import opened Types
  import opened Lru
  import Bits

  datatype Frame<D> = Frame(data: D, pageId: PageId, pinCount: nat, isDirty: bool)

  datatype Pool<D> = Pool(frames: seq<Frame<D>>, pageTable: map<PageId, FrameId>, free: seq<FrameId>,
                          evictable: seq<FrameId>, disk: map<PageId, D>, view: map<PageId, D>,
                          pins: multiset<PageId>, debt: set<PageId>)

  /**
   A frame is free, or evictable (resident with pin count 0), or pinned, and only one of these; the table finds it.
   */
  ghost predicate FrameOk<D>(s: Pool<D>, f: FrameId)
    requires f < |s.frames|
  {
    var frame := s.frames[f];
    if frame.pageId == INVALID_PAGE_ID then
      f in s.free && f !in s.evictable && frame.pinCount == 0 && !frame.isDirty
    else
      && f !in s.free && (f in s.evictable <==> frame.pinCount == 0)
      && frame.pageId in s.pageTable && s.pageTable[frame.pageId] == f
  }

  /**
   A page is seen in its frame when resident and on disk otherwise; its pins are counted in its frame; and while it is
   resident, not marked dirty, and differs from its disk copy, some writer owes its unpin, and holds a pin.
   */
  ghost predicate PageOk<D>(s: Pool<D>, id: PageId) {
    && (id in s.debt ==> id in s.pins)
    && (id in s.view ==> id != INVALID_PAGE_ID && id in s.disk)
    && if id in s.pageTable then
         && id in s.view && s.pageTable[id] < |s.frames|
         && var frame := s.frames[s.pageTable[id]];
         && frame.pageId == id && s.view[id] == frame.data && s.pins[id] == frame.pinCount
         && (!frame.isDirty && frame.data != s.disk[id] ==> id in s.debt)
       else
         && s.pins[id] == 0
         && (id in s.view ==> s.view[id] == s.disk[id])
  }

  ghost predicate ListsOk<D>(s: Pool<D>) {
    && Distinct(s.free) && Distinct(s.evictable)
    && (forall f :: f in s.free ==> f < |s.frames|)
    && (forall f :: f in s.evictable ==> f < |s.frames|)
  }

  ghost predicate PoolInv<D(!new)>(s: Pool<D>) {
    && ListsOk(s)
    && (forall f: FrameId :: f < |s.frames| ==> FrameOk(s, f))
    && (forall id: PageId :: PageOk(s, id))
  }

  ghost predicate Resident<D>(s: Pool<D>, id: PageId) {
    id in s.pageTable && s.pageTable[id] < |s.frames|
  }

  ghost function FrameOf<D>(s: Pool<D>, id: PageId): Frame<D>
    requires Resident(s, id)
  {
    s.frames[s.pageTable[id]]
  }

  ghost function WithFrame<D>(s: Pool<D>, f: FrameId, frame: Frame<D>): Pool<D>
    requires f < |s.frames|
  {
    s.(frames := s.frames[f := frame])
  }

  /** A new pool: every frame is free. */
  lemma InitialInv<D(!new)>(s: Pool<D>)
    requires forall f: FrameId :: f < |s.frames| ==>
               s.frames[f].pageId == INVALID_PAGE_ID && s.frames[f].pinCount == 0 && !s.frames[f].isDirty
    requires |s.free| == |s.frames| && forall f: FrameId :: f < |s.frames| ==> s.free[f] == f
    requires s.pageTable == map[] && s.evictable == [] && s.view == map[]
    requires s.pins == multiset{} && s.debt == {}
    ensures PoolInv(s)
  {
    forall f: FrameId | f < |s.frames|
      ensures FrameOk(s, f)
    {
      assert s.free[f] == f;
    }
  }

  // ---------- no lost updates ----------

  /** An unpinned clean resident page equals its disk copy, so evicting it without a write loses nothing. */
  lemma UnpinnedCleanIsOnDisk<D(!new)>(s: Pool<D>, id: PageId)
    requires PoolInv(s) && Resident(s, id) && FrameOf(s, id).pinCount == 0 && !FrameOf(s, id).isDirty
    ensures id in s.disk && FrameOf(s, id).data == s.disk[id]
    ensures id in s.view && s.view[id] == s.disk[id]
  {
    assert PageOk(s, id);
  }

  // ---------- elementary changes ----------

  /** Writing a resident unpinned page back if dirty, dropping it from the table, and freeing its frame. */
  ghost function Released<D>(s: Pool<D>, f: FrameId, blank: D): Pool<D>
    requires f < |s.frames|
  {
    var was := s.frames[f];
    s.(frames := s.frames[f := Frame(blank, INVALID_PAGE_ID, 0, false)],
       pageTable := s.pageTable - {was.pageId},
       free := s.free + [f],
       evictable := Without(s.evictable, f),
       disk := if was.isDirty then s.disk[was.pageId := was.data] else s.disk)
  }

  lemma ReleaseKeepsInv<D(!new)>(s: Pool<D>, f: FrameId, blank: D)
    requires PoolInv(s) && f < |s.frames| && f in s.evictable
    ensures PoolInv(Released(s, f, blank))
  {
    hide Without;
    var id, s' := s.frames[f].pageId, Released(s, f, blank);
    assert FrameOk(s, f) && PageOk(s, id);
    WithoutDistinct(s.evictable, f);
    forall g: FrameId | g < |s.frames|
      ensures FrameOk(s', g)
    {
      assert FrameOk(s, g);
    }
    forall p: PageId
      ensures PageOk(s', p)
    {
      assert PageOk(s, p);
    }
  }

  /** The replacer's victim: an unpinned resident page. */
  lemma ReleaseVictim<D(!new)>(s: Pool<D>)
    requires PoolInv(s) && s.evictable != []
    ensures var n := |s.evictable| - 1;
            var f := s.evictable[n];
            && f < |s.frames| && s.frames[f].pageId !in s.pins
            && PoolInv(Released(s, f, s.frames[f].data))
            && Released(s, f, s.frames[f].data).evictable == s.evictable[..n]
  {
    hide Without;
    var n := |s.evictable| - 1;
    var f := s.evictable[n];
    assert f in s.evictable;
    assert FrameOk(s, f) && PageOk(s, s.frames[f].pageId);
    WithoutAt(s.evictable, n);
    ReleaseKeepsInv(s, f, s.frames[f].data);
  }

  lemma LastFree<D(!new)>(s: Pool<D>)
    requires PoolInv(s) && s.free != []
    ensures var f := s.free[|s.free| - 1];
            f < |s.frames| && s.frames[f] == Frame(s.frames[f].data, INVALID_PAGE_ID, 0, false)
  {
    var f := s.free[|s.free| - 1];
    assert f in s.free;
    assert FrameOk(s, f);
  }

  /** A page that is not resident takes the last free frame, with one pin. */
  ghost function Installed<D>(s: Pool<D>, id: PageId, d: D): Pool<D>
    requires s.free != [] && s.free[|s.free| - 1] < |s.frames|
  {
    var f := s.free[|s.free| - 1];
    s.(frames := s.frames[f := Frame(d, id, 1, false)],
       pageTable := s.pageTable[id := f],
       free := s.free[..|s.free| - 1],
       pins := s.pins + multiset{id})
  }

  lemma InstallKeepsInv<D(!new)>(s: Pool<D>, id: PageId)
    requires PoolInv(s) && s.free != [] && id in s.view && id !in s.pageTable
    ensures s.free[|s.free| - 1] < |s.frames| && id in s.disk
    ensures PoolInv(Installed(s, id, s.disk[id]))
  {
    var n := |s.free| - 1;
    var f := s.free[n];
    assert f in s.free;
    assert FrameOk(s, f) && PageOk(s, id);
    var s' := Installed(s, id, s.disk[id]);
    assert s.free == s'.free + [f];
    forall g | g in s'.free
      ensures g in s.free
    {
    }
    assert ListsOk(s');
    assert FrameOk(s', f);
    assert PageOk(s', id);
    forall g: FrameId | g < |s.frames|
      ensures FrameOk(s', g)
    {
      assert FrameOk(s, g);
    }
    forall p: PageId
      ensures PageOk(s', p)
    {
      assert PageOk(s, p);
    }
  }

  lemma InstalledView<D(!new)>(s: Pool<D>, id: PageId, d: D)
    requires s.free != [] && s.free[|s.free| - 1] < |s.frames| && PoolInv(Installed(s, id, d))
    ensures id in s.view && s.view[id] == d
  {
    assert PageOk(Installed(s, id, d), id);
  }

  /** The frame partition by itself: each frame is as it should be, and so is each entry of the page table. */
  ghost predicate Partition<D>(s: Pool<D>) {
    && ListsOk(s)
    && (forall f: FrameId :: f < |s.frames| ==> FrameOk(s, f))
    && INVALID_PAGE_ID !in s.pageTable
    && (forall id :: id in s.pageTable ==> s.pageTable[id] < |s.frames| && s.frames[s.pageTable[id]].pageId == id)
  }

  lemma InvHasPartition<D(!new)>(s: Pool<D>)
    requires PoolInv(s)
    ensures Partition(s)
  {
    InvalidNotResident(s);
    forall id | id in s.pageTable
      ensures s.pageTable[id] < |s.frames| && s.frames[s.pageTable[id]].pageId == id
    {
      assert PageOk(s, id);
    }
  }

  /**
   A page may be given a frame exactly while it has none. Hence only issued pages may be fetched: if a page is fetched
   before its id is issued, and is still resident when it is, two frames hold it, and the page table finds one of them.
   */
  lemma InstallKeepsPartition<D(!new)>(s: Pool<D>, id: PageId, d: D)
    requires Partition(s) && s.free != [] && id != INVALID_PAGE_ID
    ensures s.free[|s.free| - 1] < |s.frames|
    ensures Partition(Installed(s, id, d)) <==> id !in s.pageTable
  {
    var n := |s.free| - 1;
    var f := s.free[n];
    assert f in s.free;
    assert FrameOk(s, f);
    var s' := Installed(s, id, d);
    if id in s.pageTable {
      assert !FrameOk(s', s.pageTable[id]);
    } else {
      assert s.free == s'.free + [f];
      forall g | g in s'.free
        ensures g in s.free
      {
      }
      assert ListsOk(s');
      assert FrameOk(s', f);
      forall g: FrameId | g < |s.frames|
        ensures FrameOk(s', g)
      {
        assert FrameOk(s, g);
      }
    }
  }

  /** Issuing an id does not touch the frames, so it is the early fetch that breaks the partition, if it is resident. */
  lemma EarlyFetchBreaksInv<D(!new)>(s: Pool<D>, id: PageId, d: D, zero: D)
    requires Partition(s) && s.free != [] && id != INVALID_PAGE_ID && id !in s.pageTable
    ensures s.free[|s.free| - 1] < |s.frames|
    ensures var n := |s.free| - 1;
            var fetched := Installed(s, id, d);
            && Partition(fetched) && Partition(Issued(fetched, id, zero))
            && (fetched.free != [] ==>
                  && fetched.free[|fetched.free| - 1] < |s.frames|
                  && var issued := Installed(Issued(fetched, id, zero), id, zero);
                  && issued.frames[s.free[n]].pageId == id == issued.frames[fetched.free[n - 1]].pageId
                  && !Partition(issued) && !PoolInv(issued))
  {
    hide PoolInv;
    InstallKeepsPartition(s, id, d);
    var fetched := Installed(s, id, d);
    IssueKeepsPartition(fetched, id, zero);
    if fetched.free != [] {
      var n := |s.free| - 1;
      InstallKeepsPartition(Issued(fetched, id, zero), id, zero);
      assert s.free[n - 1] != s.free[n];
      var issued := Installed(Issued(fetched, id, zero), id, zero);
      if PoolInv(issued) {
        InvHasPartition(issued);
      }
    }
  }

  lemma IssueKeepsPartition<D>(s: Pool<D>, id: PageId, d: D)
    requires Partition(s)
    ensures Partition(Issued(s, id, d))
  {
    forall f: FrameId | f < |s.frames|
      ensures FrameOk(Issued(s, id, d), f)
    {
      assert FrameOk(s, f);
    }
  }

  lemma SpareIsNotEvictable<D(!new)>(s: Pool<D>, f: FrameId)
    requires PoolInv(s) && f < |s.frames| && s.frames[f].pageId == INVALID_PAGE_ID
    ensures Without(s.evictable, f) == s.evictable
  {
    assert FrameOk(s, f);
  }

  lemma PinnedAreResident<D(!new)>(s: Pool<D>)
    requires PoolInv(s)
    ensures forall id :: id in s.pins ==> id in s.pageTable
  {
    forall id | id in s.pins
      ensures id in s.pageTable
    {
      assert PageOk(s, id);
    }
  }

  lemma PinnedAreIssued<D(!new)>(s: Pool<D>)
    requires PoolInv(s)
    ensures forall id :: id in s.pins ==> id in s.view
    ensures forall id :: id in s.debt ==> id in s.pins
  {
    forall id
      ensures (id in s.debt ==> id in s.pins) && (id in s.pins ==> id in s.view)
    {
      assert PageOk(s, id);
    }
  }

  lemma InvalidNotResident<D(!new)>(s: Pool<D>)
    requires PoolInv(s)
    ensures INVALID_PAGE_ID !in s.pageTable
  {
    assert PageOk(s, INVALID_PAGE_ID);
  }

  /** A page that is not resident is seen on disk. */
  lemma OnDisk<D(!new)>(s: Pool<D>, id: PageId)
    requires PoolInv(s) && id in s.view && id !in s.pageTable
    ensures id in s.disk && s.disk[id] == s.view[id]
  {
    assert PageOk(s, id);
  }

  /** A fresh page is issued: it reads as `d`, and so does the disk. */
  ghost function Issued<D>(s: Pool<D>, id: PageId, d: D): Pool<D> {
    s.(view := s.view[id := d], disk := s.disk[id := d])
  }

  lemma IssueKeepsInv<D(!new)>(s: Pool<D>, id: PageId, d: D)
    requires PoolInv(s) && id !in s.view && id != INVALID_PAGE_ID
    ensures PoolInv(Issued(s, id, d))
    ensures id !in s.pageTable
  {
    var s' := Issued(s, id, d);
    assert PageOk(s, id);
    forall g: FrameId | g < |s.frames|
      ensures FrameOk(s', g)
    {
      assert FrameOk(s, g);
    }
    forall p: PageId
      ensures PageOk(s', p)
    {
      assert PageOk(s, p);
    }
  }

  /** One more pin on a resident page, which is no longer evictable. */
  ghost function PinnedAgain<D>(s: Pool<D>, id: PageId): Pool<D>
    requires Resident(s, id)
  {
    var f := s.pageTable[id];
    WithFrame(s, f, s.frames[f].(pinCount := s.frames[f].pinCount + 1))
      .(evictable := Without(s.evictable, f), pins := s.pins + multiset{id})
  }

  lemma WithoutDistinct(s: seq<FrameId>, f: FrameId)
    requires Distinct(s)
    ensures Distinct(Without(s, f))
  {
    hide Without;
    if f in s {
      var k :| 0 <= k < |s| && s[k] == f;
      WithoutAt(s, k);
    }
  }

  lemma PinKeepsInv<D(!new)>(s: Pool<D>, id: PageId)
    requires PoolInv(s) && Resident(s, id)
    ensures PoolInv(PinnedAgain(s, id))
  {
    hide Without;
    var f, s' := s.pageTable[id], PinnedAgain(s, id);
    WithoutDistinct(s.evictable, f);
    assert FrameOk(s, f) && PageOk(s, id);
    forall g: FrameId | g < |s.frames|
      ensures FrameOk(s', g)
    {
      assert FrameOk(s, g);
    }
    forall p: PageId
      ensures PageOk(s', p)
    {
      assert PageOk(s, p);
    }
  }

  /** A resident page is marked dirty, which settles its debt. */
  ghost function Marked<D>(s: Pool<D>, id: PageId): Pool<D>
    requires Resident(s, id)
  {
    WithFrame(s, s.pageTable[id], FrameOf(s, id).(isDirty := true)).(debt := s.debt - {id})
  }

  lemma MarkKeepsInv<D(!new)>(s: Pool<D>, id: PageId)
    requires PoolInv(s) && Resident(s, id)
    ensures PoolInv(Marked(s, id))
  {
    var s' := Marked(s, id);
    assert FrameOk(s, s.pageTable[id]) && PageOk(s, id);
    forall g: FrameId | g < |s.frames|
      ensures FrameOk(s', g)
    {
      assert FrameOk(s, g);
    }
    forall p: PageId
      ensures PageOk(s', p)
    {
      assert PageOk(s, p);
    }
  }

  /** One pin less. With the last pin the frame becomes evictable, and nobody is left to owe an unpin. */
  ghost function OnePinLess<D>(s: Pool<D>, id: PageId): Pool<D>
    requires Resident(s, id) && FrameOf(s, id).pinCount > 0
  {
    var f, n := s.pageTable[id], FrameOf(s, id).pinCount - 1;
    WithFrame(s, f, s.frames[f].(pinCount := n))
      .(evictable := if n == 0 then [f] + s.evictable else s.evictable,
        pins := s.pins - multiset{id},
        debt := if n == 0 && id in s.debt then s.debt - {id} else s.debt)
  }

  /** Nothing is lost when the frame of `id` is evicted: it will be written back, or its disk copy is current. */
  ghost predicate Saved<D>(s: Pool<D>, id: PageId)
    requires Resident(s, id)
  {
    FrameOf(s, id).isDirty || (id in s.disk && FrameOf(s, id).data == s.disk[id])
  }

  /** Dropping a pin keeps the invariant exactly when it is not the last one, or the page is saved. */
  lemma UnpinKeepsInv<D(!new)>(s: Pool<D>, id: PageId)
    requires PoolInv(s) && Resident(s, id) && FrameOf(s, id).pinCount > 0
    ensures PoolInv(OnePinLess(s, id)) <==> FrameOf(s, id).pinCount > 1 || Saved(s, id)
    ensures id !in s.debt ==> Saved(s, id)
  {
    var s' := OnePinLess(s, id);
    assert FrameOk(s, s.pageTable[id]) && PageOk(s, id);
    if FrameOf(s, id).pinCount > 1 || Saved(s, id) {
      forall g: FrameId | g < |s.frames|
        ensures FrameOk(s', g)
      {
        assert FrameOk(s, g);
      }
      forall p: PageId
        ensures PageOk(s', p)
      {
        assert PageOk(s, p);
      }
    } else {
      assert !PageOk(s', id);
    }
  }

  /**
   And so the protocol is needed: when the last pin on a page that is not saved is dropped, eviction loses the write.
   */
  lemma UnsavedPageIsLost<D(!new)>(s: Pool<D>, id: PageId, blank: D)
    requires PoolInv(s) && Resident(s, id) && FrameOf(s, id).pinCount == 1
    ensures var s' := Released(OnePinLess(s, id), s.pageTable[id], blank);
            && id !in s'.pageTable && id in s'.disk && id in s'.view && s'.view[id] == s.view[id]
            && (s'.disk[id] == s'.view[id] <==> Saved(s, id))
  {
    assert PageOk(s, id);
  }

  /** Writing a frame to disk; a free frame's write goes to the invalid id and touches no page. */
  ghost function Flushed<D>(s: Pool<D>, f: FrameId): Pool<D>
    requires f < |s.frames|
  {
    s.(disk := s.disk[s.frames[f].pageId := s.frames[f].data])
  }

  lemma FlushKeepsInv<D(!new)>(s: Pool<D>, f: FrameId)
    requires PoolInv(s) && f < |s.frames|
    ensures PoolInv(Flushed(s, f))
  {
    var s' := Flushed(s, f);
    assert FrameOk(s, f) && PageOk(s, s.frames[f].pageId);
    forall g: FrameId | g < |s.frames|
      ensures FrameOk(s', g)
    {
      assert FrameOk(s, g);
    }
    forall p: PageId
      ensures PageOk(s', p)
    {
      assert PageOk(s, p);
    }
  }

  /** The frames below `n` are on disk as they are in memory. */
  ghost predicate FlushedBelow<D>(s: Pool<D>, n: nat)
    requires n <= |s.frames|
  {
    forall f: FrameId | f < n && s.frames[f].pageId != INVALID_PAGE_ID ::
      s.frames[f].pageId in s.disk && s.disk[s.frames[f].pageId] == s.frames[f].data
  }

  lemma FlushedStep<D(!new)>(s: Pool<D>, f: FrameId)
    requires PoolInv(s) && f < |s.frames| && FlushedBelow(s, f)
    ensures FlushedBelow(Flushed(s, f), f + 1)
  {
    assert FrameOk(s, f);
    forall g: FrameId | g < f
      ensures s.frames[g].pageId == s.frames[f].pageId ==> s.frames[f].pageId == INVALID_PAGE_ID
    {
      assert FrameOk(s, g);
    }
  }

  /** A frame is free, or it holds an issued page. */
  lemma FreeOrIssued<D(!new)>(s: Pool<D>, f: FrameId)
    requires PoolInv(s) && f < |s.frames|
    ensures s.frames[f].pageId == INVALID_PAGE_ID || s.frames[f].pageId in s.view
  {
    assert FrameOk(s, f);
    assert PageOk(s, s.frames[f].pageId);
  }

  lemma AllFlushed<D(!new)>(s: Pool<D>)
    requires PoolInv(s) && FlushedBelow(s, |s.frames|)
    ensures forall id :: id in s.view ==> id in s.disk && s.disk[id] == s.view[id]
  {
    forall id | id in s.view
      ensures id in s.disk && s.disk[id] == s.view[id]
    {
      assert PageOk(s, id);
    }
  }

  /** A holder of a pin writes the page, and owes an unpin. */
  ghost function Written<D>(s: Pool<D>, id: PageId, d: D): Pool<D>
    requires Resident(s, id)
  {
    WithFrame(s, s.pageTable[id], FrameOf(s, id).(data := d))
      .(view := s.view[id := d], debt := s.debt + {id})
  }

  lemma WriteKeepsInv<D(!new)>(s: Pool<D>, id: PageId, d: D)
    requires PoolInv(s) && Resident(s, id) && id in s.pins
    ensures PoolInv(Written(s, id, d))
  {
    var s' := Written(s, id, d);
    assert FrameOk(s, s.pageTable[id]) && PageOk(s, id);
    forall g: FrameId | g < |s.frames|
      ensures FrameOk(s', g)
    {
      assert FrameOk(s, g);
    }
    forall p: PageId
      ensures PageOk(s', p)
    {
      assert PageOk(s, p);
    }
  }

  // ---------- when no frame is to be had ----------

  ghost function PinnedIds(pins: multiset<PageId>): set<PageId> {
    set id | id in pins
  }

  /** The ids of the pinned pages among the first `n` frames. */
  ghost function PinnedBelow<D>(s: Pool<D>, n: nat): set<PageId>
    requires n <= |s.frames|
  {
    set f | 0 <= f < n && s.frames[f].pinCount > 0 :: s.frames[f].pageId
  }

  /** The first `n` frames are all pinned. */
  ghost predicate AllPinned<D>(s: Pool<D>, n: nat)
    requires n <= |s.frames|
    ensures AllPinned(s, n) <==> forall f :: 0 <= f < n ==> s.frames[f].pinCount > 0
  {
    n == 0 || (AllPinned(s, n - 1) && s.frames[n - 1].pinCount > 0)
  }

  lemma PinnedBelowStep<D>(s: Pool<D>, n: nat)
    requires n < |s.frames|
    ensures PinnedBelow(s, n + 1) ==
            PinnedBelow(s, n) + (if s.frames[n].pinCount > 0 then {s.frames[n].pageId} else {})
  {
  }

  lemma {:induction false} PinnedBelowSize<D(!new)>(s: Pool<D>, n: nat)
    requires PoolInv(s) && n <= |s.frames|
    ensures |PinnedBelow(s, n)| <= n
    ensures |PinnedBelow(s, n)| == n <==> AllPinned(s, n)
  {
    hide PoolInv, FrameOk, PageOk, ListsOk;
    if n == 0 {
      assert PinnedBelow(s, n) == {};
    } else {
      PinnedBelowSize(s, n - 1);
      PinnedBelowStep(s, n - 1);
      if s.frames[n - 1].pinCount > 0 {
        DistinctPages(s, n - 1);
      }
      hide PinnedBelow;
    }
  }

  /** No two frames hold the same page. */
  lemma DistinctPages<D(!new)>(s: Pool<D>, f: FrameId)
    requires PoolInv(s) && f < |s.frames| && s.frames[f].pinCount > 0
    ensures s.frames[f].pageId !in PinnedBelow(s, f)
  {
    assert FrameOk(s, f);
    forall g: FrameId | g < f && s.frames[g].pinCount > 0
      ensures s.frames[g].pageId != s.frames[f].pageId
    {
      assert FrameOk(s, g);
    }
  }

  lemma PinnedIdsBelow<D(!new)>(s: Pool<D>)
    requires PoolInv(s)
    ensures PinnedIds(s.pins) == PinnedBelow(s, |s.frames|)
  {
    forall id
      ensures id in PinnedIds(s.pins) <==> id in PinnedBelow(s, |s.frames|)
    {
      assert PageOk(s, id);
      if id in PinnedIds(s.pins) {
        assert s.frames[s.pageTable[id]].pinCount > 0;
      }
      if f: FrameId :| f < |s.frames| && s.frames[f].pinCount > 0 && s.frames[f].pageId == id {
        assert FrameOk(s, f);
      }
    }
  }

  /** No frame is free or evictable exactly when every frame is pinned, that is, when as many pages are. */
  lemma NoFrameIffAllPinned<D(!new)>(s: Pool<D>)
    requires PoolInv(s)
    ensures |PinnedIds(s.pins)| <= |s.frames|
    ensures |PinnedIds(s.pins)| == |s.frames| <==> forall f :: 0 <= f < |s.frames| ==> s.frames[f].pinCount > 0
    ensures s.free == [] && s.evictable == [] <==> |PinnedIds(s.pins)| == |s.frames|
  {
    var n := |s.frames|;
    PinnedBelowSize(s, n);
    PinnedIdsBelow(s);
    if s.free != [] {
      assert s.free[0] in s.free;
      assert FrameOk(s, s.free[0]);
    }
    if s.evictable != [] {
      assert s.evictable[0] in s.evictable;
      assert FrameOk(s, s.evictable[0]);
    }
    if s.free == [] && s.evictable == [] {
      forall f: FrameId | f < n
        ensures s.frames[f].pinCount > 0
      {
        assert FrameOk(s, f);
      }
    }
  }

  /** A fetch can be served exactly when the page is pinned already or some frame is not. */
  lemma ResidentMeansRoom<D(!new)>(s: Pool<D>, id: PageId)
    requires PoolInv(s) && id in s.pageTable
    ensures Resident(s, id) && id in s.view && s.view[id] == FrameOf(s, id).data && FrameOf(s, id).pageId == id
    ensures FrameOf(s, id).pinCount == s.pins[id]
    ensures id in s.pins || |PinnedIds(s.pins)| < |s.frames|
  {
    assert PageOk(s, id);
    NoFrameIffAllPinned(s);
  }

  /** Pinned pages are resident. */
  lemma PinnedIsResident<D(!new)>(s: Pool<D>, id: PageId)
    requires PoolInv(s) && id in s.pins
    ensures Resident(s, id) && id in s.view && s.view[id] == FrameOf(s, id).data && FrameOf(s, id).pageId == id
  {
    assert PageOk(s, id);
  }

  /** A frame about to become evictable is not listed yet, so the replacer is below its capacity. */
  lemma LastPinBelowCapacity<D(!new)>(s: Pool<D>, id: PageId)
    requires PoolInv(s) && Resident(s, id) && FrameOf(s, id).pinCount > 0
    ensures s.pageTable[id] !in s.evictable && |s.evictable| < |s.frames|
  {
    assert PageOk(s, id);
    assert FrameOk(s, s.pageTable[id]);
    EvictableBelowCapacity(s, s.pageTable[id]);
  }

  // ---------- the replacer never fills up ----------

  ghost function Elements(s: seq<FrameId>): set<FrameId> {
    set f | f in s
  }

  ghost function Range(n: nat): (r: set<FrameId>)
    ensures |r| == n && forall f: FrameId :: f in r <==> f < n
  {
    if n == 0 then {} else Range(n - 1) + {n - 1}
  }

  lemma {:induction false} ElementsSize(s: seq<FrameId>)
    requires Distinct(s)
    ensures |Elements(s)| == |s|
  {
    if s != [] {
      var n := |s| - 1;
      ElementsSize(s[..n]);
      assert s == s[..n] + [s[n]];
      assert Elements(s) == Elements(s[..n]) + {s[n]};
    } else {
      assert Elements(s) == {};
    }
  }

  /** While some frame is not evictable, the evictable frames are fewer than the capacity of the replacer. */
  lemma EvictableBelowCapacity<D(!new)>(s: Pool<D>, f: FrameId)
    requires PoolInv(s) && f < |s.frames| && f !in s.evictable
    ensures |s.evictable| < |s.frames|
  {
    ElementsSize(s.evictable);
    SubsetCardinality(Elements(s.evictable), Range(|s.frames|) - {f});
  }

  lemma UnpinnedIsEvictable<D(!new)>(s: Pool<D>, id: PageId)
    requires PoolInv(s) && id in s.pageTable
    ensures Resident(s, id) && FrameOf(s, id).pageId == id && FrameOf(s, id).pinCount == s.pins[id]
    ensures id !in s.pins ==> s.pageTable[id] in s.evictable
  {
    assert PageOk(s, id);
    assert FrameOk(s, s.pageTable[id]);
  }

  // ---------- page ids ----------

  /** The ids issued by an instance: those below its counter that are congruent to its index. */
  ghost predicate IssuedIds(ids: set<PageId>, next: nat, instances: nat, index: nat) {
    && index < instances
    && next % instances == index
    && (forall id :: id in ids <==> 0 <= id < next && id % instances == index)
  }

  lemma NoneIssued(instances: nat, index: nat)
    requires index < instances
    ensures IssuedIds({}, index, instances, index)
  {
    Bits.SmallRemainder(index, instances);
    forall id | 0 <= id < index
      ensures id % instances != index
    {
      Bits.SmallRemainder(id, instances);
    }
  }

  /** The counter itself is the next id, and the one after it is a full round of instances further on. */
  lemma IssueNext(ids: set<PageId>, next: nat, instances: nat, index: nat)
    requires IssuedIds(ids, next, instances, index)
    ensures next !in ids
    ensures IssuedIds(ids + {next}, next + instances, instances, index)
  {
    Bits.NextCongruent(next, next, instances);
    forall id | next < id < next + instances
      ensures id % instances != index
    {
      Bits.NextCongruent(next, id, instances);
    }
  }
}
