/** The directory page: its fields are updated in place, and `Dir()` is its value. */
module DirectoryPages {
  import opened Types
  import opened Bits
  import opened DirectoryModel

  /** `memcpy(a + n, a, n)` */
  method CopyUp<T>(a: array<T>, n: nat)
    requires 2 * n <= a.Length
    modifies a
    ensures a[..] == old(a[..n] + a[..n] + a[2 * n..])
  {
    forall i | 0 <= i < n {
      a[n + i] := a[i];
    }
  }

  class DirectoryPage {
    var pageId: PageId
    var globalDepth: nat
    const localDepths: array<nat>
    const bucketPageIds: array<PageId>

    ghost function Dir(): Directory
      reads this`globalDepth, localDepths, bucketPageIds
    {
      Directory(globalDepth, localDepths[..], bucketPageIds[..])
    }

    ghost predicate Valid()
      reads this`globalDepth, localDepths, bucketPageIds
    {
      localDepths as object != bucketPageIds && Shape(Dir())
    }

    /** A typed page over the bytes of a frame. */
    constructor (id: PageId, d: Directory)
      requires Shape(d)
      ensures Valid() && Dir() == d && pageId == id
      ensures fresh(localDepths) && fresh(bucketPageIds)
    {
      pageId := id;
      globalDepth := d.globalDepth;
      localDepths := new nat[|d.localDepths|](i requires 0 <= i < |d.localDepths| => d.localDepths[i]);
      bucketPageIds := new PageId[|d.bucketPageIds|](i requires 0 <= i < |d.bucketPageIds| => d.bucketPageIds[i]);
      new;
      assert Dir() == d;
    }

    method GetSize() returns (n: nat)
      requires Valid()
      ensures n == Size(Dir()) <= DIRECTORY_ARRAY_SIZE
    {
      n := Pow2(globalDepth);
    }

    /** Masking a hash with the global depth mask selects its slot. */
    method GetGlobalDepthMask() returns (mask: nat)
      requires Valid()
      ensures mask < Size(Dir())
      ensures forall x: nat :: BitAnd(x, mask) == Low(x, globalDepth)
    {
      mask := Pow2(globalDepth) - 1;
      forall x: nat
        ensures BitAnd(x, mask) == Low(x, globalDepth)
      {
        AndMask(x, globalDepth);
      }
    }

    method GetLocalDepthMask(slot: nat) returns (mask: nat)
      requires Valid() && slot < DIRECTORY_ARRAY_SIZE
      ensures forall x: nat :: BitAnd(x, mask) == Low(x, localDepths[slot])
    {
      mask := Pow2(localDepths[slot]) - 1;
      forall x: nat
        ensures BitAnd(x, mask) == Low(x, localDepths[slot])
      {
        AndMask(x, localDepths[slot]);
      }
    }

    /** `(1 << local_depth) >> 1` */
    method GetLocalHighBit(slot: nat) returns (bit: nat)
      requires Valid() && slot < DIRECTORY_ARRAY_SIZE
      ensures bit == if localDepths[slot] == 0 then 0 else Pow2(localDepths[slot] - 1)
    {
      bit := Pow2(localDepths[slot]) / 2;
    }

    /**
     The image differs from the slot in the last bit of the local depth and in no other; at depth 0 it is the slot.
     */
    method GetSplitImageIndex(slot: nat) returns (image: nat)
      requires Valid() && slot < Size(Dir())
      ensures localDepths[slot] == 0 ==> image == slot
      ensures localDepths[slot] >= 1 ==> image == SplitImage(slot, localDepths[slot])
      ensures forall j: nat :: localDepths[slot] >= 1 ==>
                                 (Bit(image, j) != Bit(slot, j) <==> j == localDepths[slot] - 1)
    {
      var bit := GetLocalHighBit(slot);
      image := BitXor(slot, bit);
      if localDepths[slot] == 0 {
        XorZero(slot);
      } else {
        forall j: nat
          ensures Bit(image, j) != Bit(slot, j) <==> j == localDepths[slot] - 1
        {
          XorBit(slot, localDepths[slot] - 1, j);
        }
      }
    }

    method SetBucketPageId(slot: nat, id: PageId)
      requires Valid() && slot < DIRECTORY_ARRAY_SIZE
      modifies bucketPageIds
      ensures Valid()
      ensures Dir() == old(Dir()).(bucketPageIds := old(Dir()).bucketPageIds[slot := id])
    {
      ghost var before := Dir();
      bucketPageIds[slot] := id;
      assert Dir().localDepths == before.localDepths;
    }

    /** The source asserts that the depth does not exceed the global depth. */
    method SetLocalDepth(slot: nat, depth: nat)
      requires Valid() && slot < DIRECTORY_ARRAY_SIZE && depth <= globalDepth
      modifies localDepths
      ensures Valid()
      ensures Dir() == old(Dir()).(localDepths := old(Dir()).localDepths[slot := depth])
    {
      ghost var before := Dir();
      localDepths[slot] := depth;
      assert Dir().bucketPageIds == before.bucketPageIds;
    }

    method IncrLocalDepth(slot: nat)
      requires Valid() && slot < DIRECTORY_ARRAY_SIZE && localDepths[slot] < globalDepth
      modifies localDepths
      ensures Valid()
      ensures Dir() == old(Dir()).(localDepths := old(Dir()).localDepths[slot := old(localDepths[slot]) + 1])
    {
      ghost var before := Dir();
      localDepths[slot] := localDepths[slot] + 1;
      assert Dir().bucketPageIds == before.bucketPageIds;
    }

    method DecrLocalDepth(slot: nat)
      requires Valid() && slot < DIRECTORY_ARRAY_SIZE && localDepths[slot] > 0
      modifies localDepths
      ensures Valid()
      ensures Dir() == old(Dir()).(localDepths := old(Dir()).localDepths[slot := old(localDepths[slot]) - 1])
    {
      ghost var before := Dir();
      localDepths[slot] := localDepths[slot] - 1;
      assert Dir().bucketPageIds == before.bucketPageIds;
    }

    /** Two block copies of the live half, then one more bit of depth. */
    method IncrGlobalDepth()
      requires Valid() && Size(Dir()) <= DIRECTORY_ARRAY_SIZE / 2
      modifies this`globalDepth, localDepths, bucketPageIds
      ensures Valid()
      ensures Dir() == Doubled(old(Dir()))
      ensures globalDepth == old(globalDepth) + 1
      ensures var n := old(Pow2(globalDepth));
              && (forall i :: 0 <= i < 2 * n ==> localDepths[i] == old(localDepths[..])[if i < n then i else i - n])
              && (forall i :: 0 <= i < 2 * n ==> bucketPageIds[i] == old(bucketPageIds[..])[if i < n then i else i - n])
    {
      ghost var before := Dir();
      var n := GetSize();
      CanDouble(before);
      CopyUp(localDepths, n);
      CopyUp(bucketPageIds, n);
      globalDepth := globalDepth + 1;
      assert Dir() == Doubled(before);
    }

    method DecrGlobalDepth()
      requires Valid() && globalDepth > 0
      modifies this`globalDepth
      ensures Valid()
      ensures Dir() == old(Dir()).(globalDepth := old(globalDepth) - 1)
    {
      Pow2Monotone(globalDepth - 1, globalDepth);
      globalDepth := globalDepth - 1;
    }

    method CanShrink() returns (r: bool)
      requires Valid()
      ensures r <==> Shrinkable(Dir())
      ensures r <==> forall i :: 0 <= i < Pow2(globalDepth) ==> localDepths[i] < globalDepth
    {
      var n := GetSize();
      var i := 0;
      while i < n
        invariant 0 <= i <= n
        invariant forall j :: 0 <= j < i ==> localDepths[j] < globalDepth
      {
        if localDepths[i] >= globalDepth {
          assert !(Dir().localDepths[i] < Dir().globalDepth);
          return false;
        }
        i := i + 1;
      }
      return true;
    }

    /** `while (CanShrink()) DecrGlobalDepth();` */
    method Shrink()
      requires Valid()
      modifies this`globalDepth
      ensures Valid()
      ensures Dir() == Shrunk(old(Dir()))
      ensures globalDepth <= old(globalDepth)
      ensures exists i :: 0 <= i < Pow2(globalDepth) && localDepths[i] >= globalDepth
      ensures forall g, i :: globalDepth < g <= old(globalDepth) && 0 <= i < Pow2(g) && i < localDepths.Length ==>
                               localDepths[i] < g
    {
      hide Pow2;
      var more := CanShrink();
      while more
        invariant Valid() && Shrunk(Dir()) == Shrunk(old(Dir())) && globalDepth <= old(globalDepth)
        invariant forall g, i :: globalDepth < g <= old(globalDepth) && 0 <= i < Pow2(g) && i < localDepths.Length ==>
                                   localDepths[i] < g
        invariant more <==> Shrinkable(Dir())
        decreases globalDepth
      {
        assert Dir().localDepths[0] < Dir().globalDepth;
        DecrGlobalDepth();
        more := CanShrink();
      }
    }

    /** The first loop of `VerifyIntegrity`; `ok` is false when one of its assertions would trip. */
    method CountPointers() returns (ok: bool, count: map<PageId, nat>, depth: map<PageId, nat>)
      requires Valid()
      ensures ok ==> Tallied(Dir(), Size(Dir()), count, depth)
      ensures !ok ==> !Integrity(Dir())
    {
      ghost var d := Dir();
      count, depth := map[], map[];
      var n := GetSize();
      var i := 0;
      while i < n
        invariant 0 <= i <= n
        invariant Tallied(d, i, count, depth)
      {
        var p, l := bucketPageIds[i], localDepths[i];
        assert d.bucketPageIds[i] == p && d.localDepths[i] == l;
        if l > globalDepth {
          return false, count, depth;
        }
        ghost var before := count;
        count := count[p := if p in count then count[p] + 1 else 1];
        if p in depth && l != depth[p] {
          return false, count, depth;
        }
        TalliedStep(d, i, before, depth);
        depth := depth[p := l];
        i := i + 1;
      }
      ok := true;
    }

    /** Counts the pointers to each page and checks one depth a page; `ok` is false when an assertion would trip. */
    method VerifyIntegrity() returns (ok: bool)
      requires Valid()
      ensures ok <==> Integrity(Dir())
      ensures var d, n := Dir(), Pow2(globalDepth);
              ok <==>
                && (forall i :: 0 <= i < n ==> d.localDepths[i] <= globalDepth)
                && (forall i, j :: 0 <= i < n && 0 <= j < n && d.bucketPageIds[i] == d.bucketPageIds[j] ==>
                      d.localDepths[i] == d.localDepths[j])
                && (forall i :: 0 <= i < n ==>
                      multiset(d.bucketPageIds[..n])[d.bucketPageIds[i]] == Pow2(globalDepth - d.localDepths[i]))
    {
      hide Pow2, Integrity, Counted, Measured;
      ghost var d := Dir();
      IntegrityMeans(d);
      var tallied, count, depth := CountPointers();
      if !tallied {
        return false;
      }
      DepthsBounded(d, count, depth);
      ok := CheckCounts(count, depth, globalDepth);
      IntegrityIffTally(d, count, depth);
    }
  }

  /** The next entry of an unordered container. */
  method Pick<T>(s: set<T>) returns (x: T)
    requires s != {}
    ensures x in s
  {
    x :| x in s;
  }

  /** The second loop of `VerifyIntegrity`, over the entries of the count map in any order. */
  method CheckCounts(count: map<PageId, nat>, depth: map<PageId, nat>, globalDepth: nat) returns (ok: bool)
    requires count.Keys == depth.Keys
    requires forall p :: p in depth ==> depth[p] <= globalDepth
    ensures ok <==> forall p :: p in count ==> count[p] == Pow2(globalDepth - depth[p])
  {
    var todo := count.Keys;
    while todo != {}
      invariant todo <= count.Keys
      invariant forall p :: p in count && p !in todo ==> count[p] == Pow2(globalDepth - depth[p])
      decreases todo
    {
      var p := Pick(todo);
      if count[p] != Pow2(globalDepth - depth[p]) {
        return false;
      }
      todo := todo - {p};
    }
    return true;
  }

  ghost function IdsBelow(d: Directory, n: nat): set<PageId>
    requires Shape(d) && n <= Size(d)
  {
    set j | 0 <= j < n :: d.bucketPageIds[j]
  }

  /** What the count map of `VerifyIntegrity` holds after `n` slots: how often each page occurs. */
  ghost predicate Counted(d: Directory, n: nat, count: map<PageId, nat>)
    requires Shape(d) && n <= Size(d)
  {
    && count.Keys == IdsBelow(d, n)
    && (forall p :: p in count ==> count[p] == multiset(d.bucketPageIds[..n])[p])
  }

  /** What the other map holds: the one depth of each page. */
  ghost predicate Measured(d: Directory, n: nat, depth: map<PageId, nat>)
    requires Shape(d) && n <= Size(d)
  {
    && depth.Keys == IdsBelow(d, n)
    && (forall j :: 0 <= j < n ==> d.localDepths[j] <= d.globalDepth)
    && (forall j :: 0 <= j < n ==> depth[d.bucketPageIds[j]] == d.localDepths[j])
  }

  ghost predicate Tallied(d: Directory, n: nat, count: map<PageId, nat>, depth: map<PageId, nat>)
    requires Shape(d) && n <= Size(d)
  {
    Counted(d, n, count) && Measured(d, n, depth)
  }

  lemma IdsStep(d: Directory, n: nat)
    requires Shape(d) && n < Size(d)
    ensures IdsBelow(d, n + 1) == IdsBelow(d, n) + {d.bucketPageIds[n]}
    ensures d.bucketPageIds[n] !in IdsBelow(d, n) ==> d.bucketPageIds[n] !in d.bucketPageIds[..n]
  {
    hide Pow2;
  }

  lemma CountStep(d: Directory, n: nat, count: map<PageId, nat>)
    requires Shape(d) && n < Size(d) && Counted(d, n, count)
    ensures var p := d.bucketPageIds[n];
            Counted(d, n + 1, count[p := if p in count then count[p] + 1 else 1])
  {
    hide Pow2, IdsBelow;
    IdsStep(d, n);
    assert d.bucketPageIds[..n + 1] == d.bucketPageIds[..n] + [d.bucketPageIds[n]];
  }

  lemma MeasureStep(d: Directory, n: nat, depth: map<PageId, nat>)
    requires Shape(d) && n < Size(d) && Measured(d, n, depth) && d.localDepths[n] <= d.globalDepth
    requires d.bucketPageIds[n] in depth ==> depth[d.bucketPageIds[n]] == d.localDepths[n]
    ensures Measured(d, n + 1, depth[d.bucketPageIds[n] := d.localDepths[n]])
  {
    hide Pow2, IdsBelow;
    IdsStep(d, n);
  }

  lemma TalliedStep(d: Directory, n: nat, count: map<PageId, nat>, depth: map<PageId, nat>)
    requires Shape(d) && n < Size(d) && Tallied(d, n, count, depth)
    requires d.localDepths[n] <= d.globalDepth
    requires d.bucketPageIds[n] in depth ==> depth[d.bucketPageIds[n]] == d.localDepths[n]
    ensures var p := d.bucketPageIds[n];
            Tallied(d, n + 1, count[p := if p in count then count[p] + 1 else 1], depth[p := d.localDepths[n]])
  {
    hide Pow2, Counted, Measured;
    CountStep(d, n, count);
    MeasureStep(d, n, depth);
  }

  lemma TalliedSlot(d: Directory, count: map<PageId, nat>, depth: map<PageId, nat>, p: PageId) returns (j: nat)
    requires Shape(d) && Tallied(d, Size(d), count, depth) && p in count
    ensures j < Size(d) && d.bucketPageIds[j] == p && depth[p] == d.localDepths[j] <= d.globalDepth
    ensures count[p] == multiset(Slots(d))[d.bucketPageIds[j]]
  {
    hide Pow2;
    j :| 0 <= j < Size(d) && d.bucketPageIds[j] == p;
  }

  lemma DepthsBounded(d: Directory, count: map<PageId, nat>, depth: map<PageId, nat>)
    requires Shape(d) && Tallied(d, Size(d), count, depth)
    ensures count.Keys == depth.Keys && forall p :: p in depth ==> depth[p] <= d.globalDepth
  {
    hide Pow2;
    forall p | p in count
      ensures depth[p] <= d.globalDepth
    {
      var j := TalliedSlot(d, count, depth, p);
    }
  }

  lemma IntegrityFromTally(d: Directory, count: map<PageId, nat>, depth: map<PageId, nat>)
    requires Shape(d) && Tallied(d, Size(d), count, depth)
    requires forall p :: p in count ==> depth[p] <= d.globalDepth && count[p] == Pow2(d.globalDepth - depth[p])
    ensures Integrity(d)
  {
    hide Pow2;
    forall i | 0 <= i < Size(d)
      ensures multiset(Slots(d))[d.bucketPageIds[i]] == Pow2(d.globalDepth - d.localDepths[i])
    {
      var p := d.bucketPageIds[i];
      assert p in count && depth[p] == d.localDepths[i];
      assert d.bucketPageIds[..Size(d)] == Slots(d);
      assert count[p] == multiset(Slots(d))[p];
    }
  }

  lemma IntegrityIffTally(d: Directory, count: map<PageId, nat>, depth: map<PageId, nat>)
    requires Shape(d) && Tallied(d, Size(d), count, depth)
    requires count.Keys == depth.Keys && forall p :: p in depth ==> depth[p] <= d.globalDepth
    ensures Integrity(d) <==> forall p :: p in count ==> count[p] == Pow2(d.globalDepth - depth[p])
  {
    hide Pow2, Counted, Measured;
    if p :| p in count && count[p] != Pow2(d.globalDepth - depth[p]) {
      var j := TalliedSlot(d, count, depth, p);
    } else {
      hide Integrity;
      IntegrityFromTally(d, count, depth);
    }
  }

  /** The three conditions, in terms of the live slots. */
  lemma IntegrityMeans(d: Directory)
    requires Shape(d)
    ensures var n := Pow2(d.globalDepth);
            Integrity(d) <==>
              && (forall i :: 0 <= i < n ==> d.localDepths[i] <= d.globalDepth)
              && (forall i, j :: 0 <= i < n && 0 <= j < n && d.bucketPageIds[i] == d.bucketPageIds[j] ==>
                    d.localDepths[i] == d.localDepths[j])
              && (forall i :: 0 <= i < n ==>
                    multiset(d.bucketPageIds[..n])[d.bucketPageIds[i]] == Pow2(d.globalDepth - d.localDepths[i]))
  {
    hide Pow2;
  }
}
