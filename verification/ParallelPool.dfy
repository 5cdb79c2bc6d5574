/** Several buffer pool instances behind one interface: pages are routed by id, new pages are placed round robin. */
module ParallelPool {
  import opened Types
  import opened PoolModel
  import opened BufferPool
  import Bits

  /** `start, start + 1, ..., start + n - 1` modulo `n` visits every index below `n`. */
  lemma RoundRobinCovers(start: nat, n: nat, i: nat)
    requires start < n && i < n
    ensures var idx := if i < start then i + n else i; start <= idx < start + n && idx % n == i
  {
    Bits.SmallRemainder(i, n);
    Bits.NextCongruent(i, i, n);
  }

  class ParallelBufferPoolManager<D(!new)> {
    const poolSize: nat
    const numInstances: nat
    const bpmList: seq<BufferPoolManagerInstance<D>>
    var startIdx: nat

    lemma PartOfMemory(j: nat)
      requires j < |bpmList|
      ensures Footprint(j) <= Memory()
      ensures bpmList[j] in Memory() && bpmList[j].replacer in Memory()
      ensures forall p :: p in bpmList[j].pages ==> p in Memory()
    {
      forall o | o in Footprint(j)
        ensures o in Memory()
      {
      }
      assert bpmList[j] in Footprint(j) && bpmList[j].replacer in Footprint(j);
      forall p | p in bpmList[j].pages
        ensures p in Memory()
      {
        assert p in Footprint(j);
      }
    }

    /** The memory of one instance. */
    ghost function Footprint(i: nat): set<object>
      requires i < |bpmList|
    {
      {bpmList[i], bpmList[i].replacer} + set p | p in bpmList[i].pages
    }

    /** The memory of all instances. */
    ghost function Memory(): set<object> {
      set i, o | 0 <= i < |bpmList| && o in Footprint(i) :: o
    }

    ghost predicate Apart() {
      && (forall i, j :: 0 <= i < |bpmList| && 0 <= j < |bpmList| && i != j ==> Footprint(i) !! Footprint(j))
      && (forall i :: 0 <= i < |bpmList| ==> this !in Footprint(i))
    }

    ghost predicate InstanceOk(i: nat)
      requires i < |bpmList|
      reads Footprint(i)
    {
      var b := bpmList[i];
      b.Valid() && b.numInstances == numInstances && b.instanceIndex == i && b.poolSize == poolSize
    }

    ghost predicate Valid()
      reads this, Memory()
    {
      && Apart() && |bpmList| == numInstances && startIdx < numInstances
      && (forall i :: 0 <= i < |bpmList| ==> InstanceOk(i))
    }

    /** Instance `i` has a pin on every frame. */
    ghost predicate AllPinned(i: nat)
      requires i < |bpmList|
      reads Footprint(i)
    {
      |PinnedIds(bpmList[i].pins)| == poolSize
    }

    /** The disk of instance `i` has the current contents of every page it issued. */
    ghost predicate OnDisk(i: nat)
      requires i < |bpmList|
      reads Footprint(i)
    {
      var b := bpmList[i];
      forall id :: id in b.view ==> id in b.disk && b.disk[id] == b.view[id]
    }

    twostate predicate InstanceUnchanged(i: nat)
      requires i < |bpmList|
      reads Footprint(i)
    {
      var b := bpmList[i];
      && b.view == old(b.view) && b.pins == old(b.pins) && b.debt == old(b.debt)
      && b.nextPageId == old(b.nextPageId)
    }

    constructor (instances: nat, size: nat, blank: D)
      requires instances > 0
      ensures Valid() && numInstances == instances && poolSize == size && startIdx == 0
      ensures forall i :: 0 <= i < instances ==> bpmList[i].view == map[] && bpmList[i].pins == multiset{}
    {
      hide BufferPoolManagerInstance.Valid;
      poolSize, numInstances, startIdx := size, instances, 0;
      var list: seq<BufferPoolManagerInstance<D>> := [];
      for i := 0 to instances
        invariant |list| == i
        invariant forall j :: 0 <= j < i ==>
                    && fresh(list[j]) && fresh(list[j].replacer) && (forall p :: p in list[j].pages ==> fresh(p))
                    && list[j].Valid() && list[j].numInstances == instances && list[j].instanceIndex == j
                    && list[j].poolSize == size && list[j].view == map[] && list[j].pins == multiset{}
        invariant forall j, k :: 0 <= j < k < i ==>
                    && list[j] != list[k] && list[j].replacer != list[k].replacer
                    && (forall p :: p in list[j].pages ==> p !in list[k].pages)
      {
        var b := new BufferPoolManagerInstance(size, instances, i, blank);
        list := list + [b];
      }
      bpmList := list;
    }

    /** An issued page is known to the instance its id is routed to, and to no other. */
    lemma Routing(id: PageId, i: nat)
      requires Valid() && i < numInstances && id in bpmList[i].view
      ensures 0 <= id && InstanceFor(id) == i
      ensures forall j :: 0 <= j < numInstances && j != i ==> id !in bpmList[j].view
    {
      assert InstanceOk(i);
      forall j | 0 <= j < numInstances && j != i
        ensures id !in bpmList[j].view
      {
        assert InstanceOk(j);
      }
    }

    /** The instance that serves an id: the id is converted to an unsigned word first, so negative ids have one, too. */
    function InstanceFor(id: PageId): (i: nat)
      requires numInstances > 0
      ensures i < numInstances
      ensures 0 <= id ==> i == id % numInstances
    {
      (if id < 0 then id + 0x1_0000_0000 else id) % numInstances
    }

    method GetBufferPoolManager(id: PageId) returns (bpm: BufferPoolManagerInstance<D>)
      requires Valid()
      ensures InstanceFor(id) < |bpmList| && bpm == bpmList[InstanceFor(id)]
    {
      bpm := bpmList[InstanceFor(id)];
    }

    /**
     Tries each instance at most once, in cyclic order from the starting index on, and takes the first that has a frame.
     It returns null exactly when every instance is fully pinned, and then consumes no id. Otherwise the new id is
     issued by the instance it is routed to, and has never been issued by any.
     */
    method NewPgImp() returns (page: Page?<D>, id: PageId)
      requires Valid()
      modifies this`startIdx, Memory()
      ensures Valid() && startIdx == (old(startIdx) + 1) % numInstances
      ensures page == null <==> forall i :: 0 <= i < numInstances ==> |PinnedIds(old(bpmList[i].pins))| == poolSize
      ensures page == null ==> forall i :: 0 <= i < numInstances ==> InstanceUnchanged(i)
      ensures page != null ==>
                && 0 <= id
                && var w := id % numInstances;
                // Every instance from the starting index up to the issuer is fully pinned, and the issuer is not.
                && |PinnedIds(old(bpmList[w].pins))| < poolSize
                && (forall i :: 0 <= i < numInstances &&
                                (if old(startIdx) <= w then old(startIdx) <= i < w else old(startIdx) <= i || i < w) ==>
                      |PinnedIds(old(bpmList[i].pins))| == poolSize)
                && bpmList[w].Holds(page, id)
                && id == old(bpmList[w].nextPageId) && bpmList[w].nextPageId == id + numInstances
                && (forall i :: 0 <= i < numInstances ==> id !in old(bpmList[i].view))
                && bpmList[w].view == old(bpmList[w].view)[id := bpmList[w].zero]
                && bpmList[w].pins == old(bpmList[w].pins) + multiset{id}
                && (forall i :: 0 <= i < numInstances && i != w ==> InstanceUnchanged(i))
    {
      hide BufferPoolManagerInstance.Valid, PinnedIds, Footprint, Memory;
      ghost var start := startIdx;
      page, id := Search();
      forall i | 0 <= i < numInstances && (page == null || i != id % numInstances)
        ensures bpmList[i].view == old(bpmList[i].view) && bpmList[i].pins == old(bpmList[i].pins)
        ensures bpmList[i].debt == old(bpmList[i].debt) && bpmList[i].nextPageId == old(bpmList[i].nextPageId)
      {
        assert InstanceUnchanged(i);
      }
      forall i | 0 <= i < numInstances
        ensures old(AllPinned(i)) <==> |PinnedIds(old(bpmList[i].pins))| == poolSize
      {
      }
      NextStart();
    }

    /** The loop. */
    method Search() returns (page: Page?<D>, id: PageId)
      requires Valid()
      modifies Memory()
      ensures Valid() && startIdx == old(startIdx)
      ensures page == null ==>
                forall i: nat :: i < numInstances ==> old(AllPinned(i)) && InstanceUnchanged(i)
      ensures page != null ==>
                && 0 <= id
                && var w := id % numInstances;
                && !old(AllPinned(w)) && |PinnedIds(old(bpmList[w].pins))| < poolSize
                && (forall i: nat :: i < numInstances &&
                                     (if startIdx <= w then startIdx <= i < w else startIdx <= i || i < w) ==>
                      old(AllPinned(i)))
                && bpmList[w].Holds(page, id)
                && id == old(bpmList[w].nextPageId) && bpmList[w].nextPageId == id + numInstances
                && (forall i :: 0 <= i < numInstances ==> id !in old(bpmList[i].view))
                && bpmList[w].view == old(bpmList[w].view)[id := bpmList[w].zero]
                && bpmList[w].pins == old(bpmList[w].pins) + multiset{id}
                && (forall i :: 0 <= i < numInstances && i != w ==> InstanceUnchanged(i))
    {
      hide BufferPoolManagerInstance.Valid, PinnedIds, Footprint, Memory;
      page, id := null, INVALID_PAGE_ID;
      var idx := startIdx;
      while idx < startIdx + numInstances
        invariant startIdx == old(startIdx) <= idx <= startIdx + numInstances
        invariant Valid() && page == null
        invariant forall i :: 0 <= i < numInstances ==> InstanceUnchanged(i)
        invariant forall i: nat :: i < numInstances && (startIdx <= i < idx || startIdx <= i + numInstances < idx) ==>
                                     old(AllPinned(i))
      {
        ghost var j := idx % numInstances;
        Wrapped(idx, numInstances);
        assert InstanceUnchanged(j);
        assert AllPinned(j) <==> old(AllPinned(j));
        forall i | 0 <= i < numInstances
          ensures bpmList[i].view == old(bpmList[i].view) && bpmList[i].pins == old(bpmList[i].pins)
          ensures bpmList[i].debt == old(bpmList[i].debt) && bpmList[i].nextPageId == old(bpmList[i].nextPageId)
        {
          assert InstanceUnchanged(i);
        }
        label before:
        page, id := TryInstance(idx);
        forall i | 0 <= i < numInstances && (i != j || page == null)
          ensures InstanceUnchanged(i)
        {
          assert old@before(bpmList[i].view) == old(bpmList[i].view);
          assert old@before(bpmList[i].pins) == old(bpmList[i].pins);
          assert InstanceUnchanged@before(i);
        }
        if page != null {
          return;
        }
        idx := idx + 1;
      }
      forall i: nat | i < numInstances
        ensures old(AllPinned(i))
      {
        RoundRobinCovers(startIdx, numInstances, i);
      }
    }

    /** Below twice the number of instances, the remainder is one subtraction away. */
    lemma Wrapped(idx: nat, n: nat)
      requires 0 < n && idx < 2 * n
      ensures idx % n == if idx < n then idx else idx - n
    {
      if idx < n {
        Bits.SmallRemainder(idx, n);
      } else {
        Bits.SmallRemainder(idx - n, n);
        Bits.NextCongruent(idx - n, idx - n, n);
      }
    }

    method NextStart()
      requires Valid()
      modifies this`startIdx
      ensures Valid() && startIdx == (old(startIdx) + 1) % numInstances
    {
      startIdx := (startIdx + 1) % numInstances;
    }

    /** One turn of the loop. */
    method TryInstance(idx: nat) returns (page: Page?<D>, id: PageId)
      requires Valid()
      modifies Memory()
      ensures Valid() && startIdx == old(startIdx)
      ensures var j := idx % numInstances;
              && (page == null <==> old(AllPinned(j)))
              && (page == null ==> InstanceUnchanged(j))
              && (page != null ==>
                    && |PinnedIds(old(bpmList[j].pins))| < poolSize
                    && 0 <= id && id % numInstances == j && bpmList[j].Holds(page, id)
                    && id == old(bpmList[j].nextPageId) && bpmList[j].nextPageId == id + numInstances
                    && (forall i :: 0 <= i < numInstances ==> id !in old(bpmList[i].view))
                    && bpmList[j].view == old(bpmList[j].view)[id := bpmList[j].zero]
                    && bpmList[j].pins == old(bpmList[j].pins) + multiset{id})
              && (forall i :: 0 <= i < numInstances && i != j ==> InstanceUnchanged(i))
    {
      hide BufferPoolManagerInstance.Valid, PinnedIds;
      var j := idx % numInstances;
      PartOfMemory(j);
      assert InstanceOk(j);
      bpmList[j].PinnedFit();
      page, id := bpmList[j].NewPgImp();
      forall i | 0 <= i < numInstances && i != j
        ensures InstanceOk(i) && InstanceUnchanged(i)
      {
        assert old(InstanceOk(i));
      }
      assert InstanceOk(j);
      if page != null {
        Routing(id, j);
      }
    }

    /** The routed instance serves the call, and no other instance notices. */
    method FetchPgImp(id: PageId) returns (page: Page?<D>)
      requires Valid() && id in bpmList[InstanceFor(id)].view
      modifies Memory()
      ensures Valid() && startIdx == old(startIdx)
      ensures var i := InstanceFor(id);
              && (page == null <==> id !in old(bpmList[i].pins) && old(AllPinned(i)))
              && bpmList[i].view == old(bpmList[i].view) && bpmList[i].debt == old(bpmList[i].debt)
              && bpmList[i].pins == (if page == null then old(bpmList[i].pins) else old(bpmList[i].pins) + multiset{id})
              && (page != null ==> bpmList[i].Holds(page, id) && page.data == bpmList[i].view[id])
      ensures forall j :: 0 <= j < numInstances && j != InstanceFor(id) ==> InstanceUnchanged(j)
    {
      hide BufferPoolManagerInstance.Valid, PinnedIds;
      var bpm := GetBufferPoolManager(id);
      PartOfMemory(InstanceFor(id));
      assert InstanceOk(InstanceFor(id));
      page := bpm.FetchPgImp(id);
      forall i | 0 <= i < numInstances && i != InstanceFor(id)
        ensures InstanceOk(i) && InstanceUnchanged(i)
      {
        assert old(InstanceOk(i));
      }
      assert InstanceOk(InstanceFor(id));
    }

    method UnpinPgImp(id: PageId, isDirty: bool) returns (ok: bool)
      requires Valid()
      requires var b := bpmList[InstanceFor(id)]; !isDirty && id in b.debt ==> b.pins[id] > 1 || b.IsSaved(id)
      modifies Memory()
      ensures Valid() && startIdx == old(startIdx)
      ensures var i := InstanceFor(id);
              && (ok <==> id in old(bpmList[i].pins)) && bpmList[i].view == old(bpmList[i].view)
              && bpmList[i].pins == (if ok then old(bpmList[i].pins) - multiset{id} else old(bpmList[i].pins))
              && bpmList[i].debt == (if id in old(bpmList[i].debt) && (isDirty || old(bpmList[i].pins)[id] == 1)
                                      then old(bpmList[i].debt) - {id} else old(bpmList[i].debt))
      ensures var b := bpmList[InstanceFor(id)];
              && b.pageTable == old(b.pageTable) && b.disk == old(b.disk)
              && (forall g: FrameId :: g < |b.pages| ==>
                    b.At(g) == if id in b.pageTable && g == b.pageTable[id]
                               then old(b.At(g)).(isDirty := old(b.At(g)).isDirty || isDirty,
                                                  pinCount := if ok then old(b.pins)[id] - 1 else 0)
                               else old(b.At(g)))
      ensures forall j :: 0 <= j < numInstances && j != InstanceFor(id) ==> InstanceUnchanged(j)
    {
      hide BufferPoolManagerInstance.Valid, PinnedIds;
      var bpm := GetBufferPoolManager(id);
      PartOfMemory(InstanceFor(id));
      assert InstanceOk(InstanceFor(id));
      ok := bpm.UnpinPgImp(id, isDirty);
      forall i | 0 <= i < numInstances && i != InstanceFor(id)
        ensures InstanceOk(i) && InstanceUnchanged(i)
      {
        assert old(InstanceOk(i));
      }
      assert InstanceOk(InstanceFor(id));
    }

    method DeletePgImp(id: PageId) returns (ok: bool)
      requires Valid()
      modifies Memory()
      ensures Valid() && startIdx == old(startIdx)
      ensures ok <==> id !in old(bpmList[InstanceFor(id)].pins)
      ensures var b := bpmList[InstanceFor(id)];
              && b.pageTable == (if ok then old(b.pageTable) - {id} else old(b.pageTable))
              && b.freeList == if ok && id in old(b.pageTable) then old(b.freeList) + [old(b.pageTable)[id]]
                               else old(b.freeList)
      ensures forall j :: 0 <= j < numInstances ==> InstanceUnchanged(j)
    {
      hide BufferPoolManagerInstance.Valid, PinnedIds;
      var bpm := GetBufferPoolManager(id);
      PartOfMemory(InstanceFor(id));
      assert InstanceOk(InstanceFor(id));
      ok := bpm.DeletePgImp(id);
      forall i | 0 <= i < numInstances && i != InstanceFor(id)
        ensures InstanceOk(i) && InstanceUnchanged(i)
      {
        assert old(InstanceOk(i));
      }
      assert InstanceOk(InstanceFor(id));
    }

    method FlushPgImp(id: PageId) returns (ok: bool)
      requires Valid()
      modifies Memory()
      ensures Valid() && startIdx == old(startIdx)
      ensures var b := bpmList[InstanceFor(id)];
              && (ok <==> id in old(b.pageTable))
              && (ok ==> id in b.view && id in b.disk && b.disk[id] == b.view[id])
      ensures forall j :: 0 <= j < numInstances ==> InstanceUnchanged(j)
    {
      hide BufferPoolManagerInstance.Valid, PinnedIds;
      var bpm := GetBufferPoolManager(id);
      PartOfMemory(InstanceFor(id));
      assert InstanceOk(InstanceFor(id));
      ok := bpm.FlushPgImp(id);
      forall i | 0 <= i < numInstances && i != InstanceFor(id)
        ensures InstanceOk(i) && InstanceUnchanged(i)
      {
        assert old(InstanceOk(i));
      }
      assert InstanceOk(InstanceFor(id));
    }

    /** Afterwards every instance's disk has the current contents of every page it issued. */
    method FlushAllPgsImp()
      requires Valid()
      modifies Memory()
      ensures Valid() && startIdx == old(startIdx)
      ensures forall j :: 0 <= j < numInstances ==> InstanceUnchanged(j)
      ensures forall j :: 0 <= j < numInstances ==> OnDisk(j)
    {
      hide BufferPoolManagerInstance.Valid, PinnedIds;
      for i := 0 to |bpmList|
        invariant Valid() && startIdx == old(startIdx)
        invariant forall j :: 0 <= j < numInstances ==> InstanceUnchanged(j)
        invariant forall j :: 0 <= j < i ==> OnDisk(j)
      {
        PartOfMemory(i);
        assert InstanceOk(i) && InstanceUnchanged(i);
        label before:
        bpmList[i].FlushAllPgsImp();
        forall j | 0 <= j < numInstances && j != i
          ensures InstanceOk(j) && InstanceUnchanged(j) && (old@before(OnDisk(j)) ==> OnDisk(j))
        {
          assert old@before(InstanceOk(j));
        }
        assert InstanceOk(i) && OnDisk(i) && InstanceUnchanged(i);
      }
    }
  }
}
