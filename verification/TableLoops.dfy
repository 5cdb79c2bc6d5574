/** The loops of the hash table over a directory page and over two bucket pages. */
module TableLoops {
  import opened Types
  import opened Bits
  import opened DirectoryModel
  import opened DirectoryPages
  import opened BucketPages
  import opened Bitmap
  import opened TableModel

  /** Slot `i` is live and agrees with `slot` on the low `l` bits. */
  ghost predicate InClass(d: Directory, slot: nat, l: nat, i: nat) {
    i < Size(d) && Low(i, l) == Low(slot, l)
  }

  /** `d'` is `d` with every slot of one class at depth `depth`, and redirected to `id` when `redirect`. */
  ghost predicate IsClassUpdate(d: Directory, slot: nat, l: nat, depth: nat, redirect: bool, id: PageId, d': Directory)
    requires Shape(d)
  {
    IsPartialUpdate(d, slot, l, depth, redirect, id, Size(d), d')
  }

  /** The same, for the slots below `bound` only. */
  ghost predicate IsPartialUpdate(d: Directory, slot: nat, l: nat, depth: nat, redirect: bool, id: PageId, bound: nat,
                                  d': Directory)
    requires Shape(d)
  {
    && Shape(d') && d'.globalDepth == d.globalDepth
    && (forall i :: 0 <= i < DIRECTORY_ARRAY_SIZE ==>
          d'.localDepths[i] == if InClass(d, slot, l, i) && i < bound then depth else d.localDepths[i])
    && (forall i :: 0 <= i < DIRECTORY_ARRAY_SIZE ==>
          d'.bucketPageIds[i] == if redirect && InClass(d, slot, l, i) && i < bound then id else d.bucketPageIds[i])
  }

  /** A stride of `2^l` goes from one member of the class to the next. */
  lemma PartialUpdateStep(d: Directory, slot: nat, l: nat, depth: nat, redirect: bool, id: PageId, curr: nat,
                          d': Directory, d'': Directory)
    requires Shape(d) && curr < Size(d) && Low(curr, l) == Low(slot, l)
    requires IsPartialUpdate(d, slot, l, depth, redirect, id, curr, d')
    requires Shape(d'') && d''.globalDepth == d'.globalDepth
    requires d''.localDepths == d'.localDepths[curr := depth]
    requires d''.bucketPageIds == if redirect then d'.bucketPageIds[curr := id] else d'.bucketPageIds
    ensures IsPartialUpdate(d, slot, l, depth, redirect, id, curr + Pow2(l), d'')
    ensures Low(curr + Pow2(l), l) == Low(slot, l)
  {
    hide Low;
    LowStride(curr, l);
    forall i: nat | i < DIRECTORY_ARRAY_SIZE && InClass(d, slot, l, i)
      ensures i < curr + Pow2(l) <==> i < curr || i == curr
    {
      if curr < i < curr + Pow2(l) {
        LowGap(curr, i, l);
      }
    }
  }

  /** The first member of a class is its own low part. */
  lemma NothingBelowFirst(d: Directory, slot: nat, l: nat, depth: nat, redirect: bool, id: PageId)
    requires Shape(d)
    ensures IsPartialUpdate(d, slot, l, depth, redirect, id, Low(slot, l), d)
    ensures Low(Low(slot, l), l) == Low(slot, l)
  {
    hide Low;
    LowLow(slot, l, l);
    forall i: nat | InClass(d, slot, l, i) && i < Low(slot, l)
      ensures false
    {
      LowSmall(i, l);
    }
  }

  /** The first slot of the class of `slot`, and the stride `GetLocalHighBit(slot) << 1` from one member to the next. */
  method ClassStart(dir: DirectoryPage, slot: nat) returns (first: nat, step: nat)
    requires dir.Valid() && slot < Size(dir.Dir()) && dir.localDepths[slot] >= 1
    ensures first == Low(slot, dir.localDepths[slot]) && step == Pow2(dir.localDepths[slot])
  {
    var mask := dir.GetLocalDepthMask(slot);
    first := BitAnd(slot, mask);
    var bit := dir.GetLocalHighBit(slot);
    step := bit * 2;
  }

  /** `SplitInsert`, first loop: the class of the split image goes to the new page. */
  method RedirectToNewPage(dir: DirectoryPage, image: nat, newId: PageId)
    requires dir.Valid() && image < Size(dir.Dir()) && 1 <= dir.localDepths[image] <= dir.globalDepth
    modifies dir.localDepths, dir.bucketPageIds
    ensures dir.Valid()
    ensures var l := old(dir.localDepths[image]); IsClassUpdate(old(dir.Dir()), image, l, l, true, newId, dir.Dir())
  {
    hide Low;
    ghost var d, l := dir.Dir(), dir.localDepths[image];
    var curr, step := ClassStart(dir, image);
    NothingBelowFirst(d, image, l, l, true, newId);
    var n := dir.GetSize();
    while curr < n
      invariant dir.Valid() && dir.globalDepth == d.globalDepth
      invariant IsPartialUpdate(d, image, l, l, true, newId, curr, dir.Dir())
      invariant Low(curr, l) == Low(image, l)
    {
      ghost var before := dir.Dir();
      dir.SetBucketPageId(curr, newId);
      dir.SetLocalDepth(curr, dir.localDepths[image]);
      PartialUpdateStep(d, image, l, l, true, newId, curr, before, dir.Dir());
      curr := curr + step;
    }
  }

  /** `SplitInsert`, second loop: the class that keeps the old page takes over the depth of its own slot. */
  method DeepenClass(dir: DirectoryPage, slot: nat, ghost id: PageId)
    requires dir.Valid() && slot < Size(dir.Dir()) && 1 <= dir.localDepths[slot] <= dir.globalDepth
    modifies dir.localDepths
    ensures dir.Valid()
    ensures var l := old(dir.localDepths[slot]); IsClassUpdate(old(dir.Dir()), slot, l, l, false, id, dir.Dir())
  {
    hide Low;
    ghost var d, l := dir.Dir(), dir.localDepths[slot];
    var curr, step := ClassStart(dir, slot);
    NothingBelowFirst(d, slot, l, l, false, id);
    var n := dir.GetSize();
    while curr < n
      invariant dir.Valid() && dir.globalDepth == d.globalDepth
      invariant IsPartialUpdate(d, slot, l, l, false, id, curr, dir.Dir())
      invariant Low(curr, l) == Low(slot, l)
    {
      ghost var before := dir.Dir();
      dir.SetLocalDepth(curr, dir.localDepths[slot]);
      PartialUpdateStep(d, slot, l, l, false, id, curr, before, dir.Dir());
      curr := curr + step;
    }
  }

  /** `Merge`, first loop: the class of the empty bucket is redirected to its partner and loses one bit of depth. */
  method RedirectToPartner(dir: DirectoryPage, slot: nat, partner: PageId)
    requires dir.Valid() && slot < Size(dir.Dir()) && 1 <= dir.localDepths[slot]
    requires forall i: nat :: InClass(dir.Dir(), slot, dir.localDepths[slot], i) ==>
                                dir.localDepths[i] == dir.localDepths[slot]
    modifies dir.localDepths, dir.bucketPageIds
    ensures dir.Valid()
    ensures var l := old(dir.localDepths[slot]);
            IsClassUpdate(old(dir.Dir()), slot, l, l - 1, true, partner, dir.Dir())
  {
    hide Low;
    ghost var d, l := dir.Dir(), dir.localDepths[slot];
    var curr, step := ClassStart(dir, slot);
    NothingBelowFirst(d, slot, l, l - 1, true, partner);
    var n := dir.GetSize();
    while curr < n
      invariant dir.Valid() && dir.globalDepth == d.globalDepth
      invariant IsPartialUpdate(d, slot, l, l - 1, true, partner, curr, dir.Dir())
      invariant Low(curr, l) == Low(slot, l)
    {
      ghost var before := dir.Dir();
      assert InClass(d, slot, l, curr);
      assert before.localDepths[curr] == l;
      dir.SetBucketPageId(curr, partner);
      dir.DecrLocalDepth(curr);
      PartialUpdateStep(d, slot, l, l - 1, true, partner, curr, before, dir.Dir());
      curr := curr + step;
    }
  }

  /** `Merge`, second loop: the partner's class loses one bit of depth. */
  method LowerClass(dir: DirectoryPage, first: nat, step: nat, ghost slot: nat, ghost l: nat, ghost id: PageId)
    requires dir.Valid() && slot < Size(dir.Dir()) && 1 <= l
    requires first == Low(slot, l) && step == Pow2(l)
    requires forall i: nat :: InClass(dir.Dir(), slot, l, i) ==> dir.localDepths[i] == l
    modifies dir.localDepths
    ensures dir.Valid()
    ensures IsClassUpdate(old(dir.Dir()), slot, l, l - 1, false, id, dir.Dir())
  {
    hide Low;
    ghost var d := dir.Dir();
    var curr := first;
    NothingBelowFirst(d, slot, l, l - 1, false, id);
    var n := dir.GetSize();
    while curr < n
      invariant dir.Valid() && dir.globalDepth == d.globalDepth
      invariant IsPartialUpdate(d, slot, l, l - 1, false, id, curr, dir.Dir())
      invariant Low(curr, l) == Low(slot, l)
    {
      ghost var before := dir.Dir();
      assert InClass(d, slot, l, curr);
      assert before.localDepths[curr] == l;
      dir.DecrLocalDepth(curr);
      PartialUpdateStep(d, slot, l, l - 1, false, id, curr, before, dir.Dir());
      curr := curr + step;
    }
  }

  // ---------- the directory part of a split ----------

  /**
   The first decision of a split: the slot gains one bit of depth, after a doubling of the directory if it already has
   all of them. This is impossible exactly when the bucket has the maximal depth.
   */
  method DeepenSlot(dir: DirectoryPage, slot: nat, ghost hash: nat) returns (ok: bool)
    requires dir.Valid() && Trie(dir.Dir()) && slot == Low(hash, dir.globalDepth)
    modifies dir`globalDepth, dir.localDepths, dir.bucketPageIds
    ensures dir.Valid()
    ensures ok <==> old(Depth(dir.Dir(), hash)) < MAX_DEPTH
    ensures !ok ==> dir.Dir() == old(dir.Dir())
    ensures ok ==>
              var d := old(dir.Dir());
              && (Depth(d, hash) < d.globalDepth || 2 * Size(d) <= DIRECTORY_ARRAY_SIZE)
              && var w := Widened(d, hash);
              && Shape(w) && slot < Size(w) && w.localDepths[slot] < w.globalDepth
              && dir.Dir() == w.(localDepths := w.localDepths[slot := w.localDepths[slot] + 1])
  {
    hide Low;
    ghost var d := dir.Dir();
    CanDouble(d);
    assert Depth(d, hash) <= d.globalDepth;
    if dir.localDepths[slot] < dir.globalDepth {
      dir.IncrLocalDepth(slot);
      return true;
    }
    var size := dir.GetSize();
    if size > DIRECTORY_ARRAY_SIZE / 2 {
      return false;
    }
    SlotStandsFor(d, hash);
    SlotIsItsOwnHash(Widened(d, hash), slot);
    dir.IncrGlobalDepth();
    dir.IncrLocalDepth(slot);
    return true;
  }

  /** The slot has already gained its bit; the image still has the old page and the old depth. */
  lemma SplitComposition(d: Directory, slot: nat, newId: PageId, d1: Directory, d2: Directory, d3: Directory)
    requires Shape(d) && slot < Size(d) && d.localDepths[slot] < d.globalDepth
    requires var l, image := d.localDepths[slot], SplitImage(slot, d.localDepths[slot] + 1);
             && image < Size(d)
             && Shape(d1) && d1.globalDepth == d.globalDepth
             && d1.localDepths == d.localDepths[slot := l + 1][image := l + 1]
             && d1.bucketPageIds == d.bucketPageIds[image := newId]
             && IsClassUpdate(d1, image, l + 1, l + 1, true, newId, d2)
             && IsClassUpdate(d2, slot, l + 1, l + 1, false, newId, d3)
    ensures IsSplit(d, slot, newId, d3)
  {
    hide Low, SplitImage;
    var l, image := d.localDepths[slot], SplitImage(slot, d.localDepths[slot] + 1);
    SplitImageClass(slot, image, l);
    forall i: nat | i < DIRECTORY_ARRAY_SIZE
      ensures d3.localDepths[i] == if i < Size(d) && Low(i, l) == Low(slot, l) then l + 1 else d.localDepths[i]
      ensures d3.bucketPageIds[i] == if i < Size(d) && Low(i, l) == Low(slot, l) && Low(i, l + 1) != Low(slot, l + 1)
                                     then newId else d.bucketPageIds[i]
    {
      SplitImageClass(slot, i, l);
      if Low(i, l + 1) == Low(slot, l + 1) {
        LowWeaken(i, slot, l, l + 1);
      }
    }
  }

  method SplitDirectory(dir: DirectoryPage, slot: nat, newId: PageId, ghost d: Directory)
    requires dir.Valid() && Shape(d) && slot < Size(d) && d.localDepths[slot] < d.globalDepth
    requires dir.Dir() == d.(localDepths := d.localDepths[slot := d.localDepths[slot] + 1])
    modifies dir.localDepths, dir.bucketPageIds
    ensures dir.Valid() && IsSplit(d, slot, newId, dir.Dir())
  {
    hide Low;
    ghost var l := d.localDepths[slot];
    var image := dir.GetSplitImageIndex(slot);
    XorKeeps(slot, l, d.globalDepth);
    dir.SetBucketPageId(image, newId);
    dir.SetLocalDepth(image, dir.localDepths[slot]);
    ghost var d1 := dir.Dir();
    RedirectToNewPage(dir, image, newId);
    ghost var d2 := dir.Dir();
    assert d2.localDepths[slot] == l + 1;
    DeepenClass(dir, slot, newId);
    // The source asserts before and after the loops that both slots have the same mask.
    assert d1.localDepths[image] == d1.localDepths[slot] && dir.localDepths[image] == dir.localDepths[slot];
    SplitComposition(d, slot, newId, d1, d2, dir.Dir());
  }

  // ---------- the directory part of a merge ----------

  lemma MergeComposition(d: Directory, slot: nat, image: nat, partner: PageId, d1: Directory, d2: Directory)
    requires Shape(d) && slot < Size(d) && image < Size(d) && 1 <= d.localDepths[slot] <= d.globalDepth
    requires var l := d.localDepths[slot];
             && Low(image, l - 1) == Low(slot, l - 1) && Low(image, l) != Low(slot, l)
             && IsClassUpdate(d, slot, l, l - 1, true, partner, d1)
             && IsClassUpdate(d1, image, l, l - 1, false, partner, d2)
    ensures IsMerge(d, slot, partner, d2)
  {
    hide Low;
    var l := d.localDepths[slot];
    forall i: nat | i < DIRECTORY_ARRAY_SIZE
      ensures d2.localDepths[i] == if i < Size(d) && Low(i, l - 1) == Low(slot, l - 1) then l - 1 else d.localDepths[i]
      ensures d2.bucketPageIds[i] == if i < Size(d) && Low(i, l) == Low(slot, l) then partner else d.bucketPageIds[i]
    {
      ImageCases(slot, image, l, i);
    }
  }

  /** In a trie the members of a class of depth `l` all have depth `l`. */
  lemma ClassDepth(d: Directory, slot: nat)
    requires Trie(d) && slot < Size(d)
    ensures forall i: nat :: InClass(d, slot, d.localDepths[slot], i) ==> d.localDepths[i] == d.localDepths[slot]
  {
    hide Low;
    TrieIffSlotTrie(d);
  }

  method MergeDirectory(dir: DirectoryPage, slot: nat, image: nat, partner: PageId)
    requires dir.Valid() && Trie(dir.Dir()) && slot < Size(dir.Dir()) && 1 <= dir.localDepths[slot]
    requires image < Size(dir.Dir()) && dir.localDepths[image] == dir.localDepths[slot]
    requires Low(image, dir.localDepths[slot] - 1) == Low(slot, dir.localDepths[slot] - 1)
    requires Low(image, dir.localDepths[slot]) != Low(slot, dir.localDepths[slot])
    modifies dir.localDepths, dir.bucketPageIds
    ensures dir.Valid() && IsMerge(old(dir.Dir()), slot, partner, dir.Dir())
  {
    hide Low;
    ghost var d, l := dir.Dir(), dir.localDepths[slot];
    TrieIffSlotTrie(d);
    ClassDepth(d, slot);
    ClassDepth(d, image);
    RedirectToPartner(dir, slot, partner);
    ghost var d1 := dir.Dir();
    forall i: nat | InClass(d1, image, l, i)
      ensures d1.localDepths[i] == l
    {
      assert InClass(d, image, l, i);
    }
    assert d1.localDepths[image] == l;
    var first, step := ClassStart(dir, image);
    LowerClass(dir, first, step, image, l, partner);
    // The source asserts before and after the loops that both slots have the same mask.
    assert d.localDepths[image] == d.localDepths[slot] && dir.localDepths[image] == dir.localDepths[slot];
    MergeComposition(d, slot, image, partner, d1, dir.Dir());
  }

  // ---------- redistribution ----------

  method KeyToPageId(dir: DirectoryPage, hash: nat) returns (id: PageId)
    requires dir.Valid()
    ensures id == Route(dir.Dir(), hash)
  {
    var index := KeyToDirectoryIndex(dir, hash);
    id := dir.bucketPageIds[index];
  }

  method KeyToDirectoryIndex(dir: DirectoryPage, hash: nat) returns (index: nat)
    requires dir.Valid()
    ensures index == Low(hash, dir.globalDepth) < Size(dir.Dir())
  {
    var mask := dir.GetGlobalDepthMask();
    index := BitAnd(hash, mask);
  }

  /** No two of the three pages share memory. */
  ghost predicate Apart(dir: DirectoryPage, bucket: BucketPage, split: BucketPage) {
    var dirArrays: set<object> := {dir.localDepths as object, dir.bucketPageIds as object};
    var bucketArrays: set<object> := {bucket.occupied as object, bucket.readable as object, bucket.slots as object};
    var splitArrays: set<object> := {split.occupied as object, split.readable as object, split.slots as object};
    dirArrays !! bucketArrays !! splitArrays
  }

  /** What holds when slots below `n` have been looked at: nothing lost, nothing doubled, nothing left behind. */
  ghost predicate Redistributed(d: Directory, h: HashFunction, oldId: PageId, original: set<Pair>, b: BucketImage,
                                capacity: nat, n: nat, moved: set<Pair>)
    requires Shape(d) && Sized(b, capacity) && n <= capacity
  {
    && Live(b, capacity) !! moved
    && Live(b, capacity) + moved == original
    && (forall kv :: kv in moved ==> Route(d, h(kv.key)) != oldId)
    && (forall j :: 0 <= j < n && Readable(b, j) ==> Route(d, h(b.slots[j].key)) == oldId)
  }

  /** The split page has room for the next pair, and does not hold it yet. */
  lemma RoomForNext(d: Directory, h: HashFunction, oldId: PageId, original: set<Pair>, b: BucketImage,
                    capacity: nat, n: nat, moved: set<Pair>)
    requires Shape(d) && Sized(b, capacity) && n < capacity && |original| <= capacity
    requires Redistributed(d, h, oldId, original, b, capacity, n, moved) && Readable(b, n)
    ensures |moved| < capacity && b.slots[n] !in moved
  {
    hide Low, Flag, Shape;
    assert b.slots[n] in Live(b, capacity);
    assert moved <= original - {b.slots[n]};
    SubsetCardinality(moved, original - {b.slots[n]});
  }

  lemma RedistributedStep(d: Directory, h: HashFunction, oldId: PageId, original: set<Pair>, b: BucketImage,
                          capacity: nat, n: nat, moved: set<Pair>, b': BucketImage)
    requires Shape(d) && WellFormed(b, capacity) && n < capacity
    requires Redistributed(d, h, oldId, original, b, capacity, n, moved)
    requires Readable(b, n) && Route(d, h(b.slots[n].key)) != oldId
    requires Sized(b', capacity) && IsErase(b, capacity, n, b')
    ensures Redistributed(d, h, oldId, original, b', capacity, n + 1, moved + {b.slots[n]})
  {
    hide Low, Flag, Shape, Route;
    EraseEffect(b, capacity, n, b');
    hide WellFormed;
    assert b.slots[n] in Live(b, capacity);
    hide Live;
  }

  lemma RedistributedAll(d: Directory, h: HashFunction, oldId: PageId, original: set<Pair>, b: BucketImage,
                         capacity: nat, moved: set<Pair>)
    requires Shape(d) && Sized(b, capacity)
    requires Redistributed(d, h, oldId, original, b, capacity, capacity, moved)
    ensures Live(b, capacity) == set kv | kv in original && Route(d, h(kv.key)) == oldId
    ensures moved == set kv | kv in original && Route(d, h(kv.key)) != oldId
  {
    hide Low, Flag;
  }

  /**
   Every pair that is no longer routed to the old page moves to the split page, and no other. At every step the two
   pages together hold the original pairs, none of them twice, and the insertion into the split page succeeds.
   */
  method Redistribute(dir: DirectoryPage, h: HashFunction, oldId: PageId, bucket: BucketPage, split: BucketPage)
    requires dir.Valid() && bucket.Valid() && split.Valid() && Apart(dir, bucket, split)
    requires split.capacity == bucket.capacity && split.Pairs() == {} && |bucket.Pairs()| == bucket.capacity
    modifies bucket.readable, split.occupied, split.readable, split.slots
    ensures bucket.Valid() && split.Valid() && dir.Valid() && dir.Dir() == old(dir.Dir())
    ensures bucket.Pairs() == set kv | kv in old(bucket.Pairs()) && Route(dir.Dir(), h(kv.key)) == oldId
    ensures split.Pairs() == set kv | kv in old(bucket.Pairs()) && Route(dir.Dir(), h(kv.key)) != oldId
  {
    hide Low, Flag, Live, Shape, Route;
    ghost var d, original, capacity := dir.Dir(), bucket.Pairs(), bucket.capacity;
    var full := bucket.IsFull();
    assert full;
    var empty := split.IsEmpty();
    assert empty;
    for i := 0 to bucket.capacity
      invariant bucket.Valid() && split.Valid() && dir.Valid() && dir.Dir() == d
      invariant Redistributed(d, h, oldId, original, bucket.Image(), capacity, i, split.Pairs())
    {
      var readableHere := bucket.IsReadable(i);
      if readableHere {
        var key := bucket.KeyAt(i);
        var value := bucket.ValueAt(i);
        var id := KeyToPageId(dir, h(key));
        if id != oldId {
          ghost var b, moved := bucket.Image(), split.Pairs();
          RoomForNext(d, h, oldId, original, b, capacity, i, moved);
          var inserted, _ := split.Insert(key, value);
          bucket.RemoveAt(i);
          RedistributedStep(d, h, oldId, original, b, capacity, i, moved, bucket.Image());
          assert inserted;
        }
      }
    }
    RedistributedAll(d, h, oldId, original, bucket.Image(), capacity, split.Pairs());
  }
}
