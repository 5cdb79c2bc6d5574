/** The extendible hash table over a buffer pool. */
module HashTable {
  import opened Types
  import opened Bits
  import opened DirectoryModel
  import opened DirectoryPages
  import opened BucketPages
  import opened TableModel
  import opened TableLoops
  import opened PoolModel
  import opened BufferPool
  import Bitmap

  /** The bytes of a page, read as what they are: fresh zeros, a directory, or a bucket. */
  datatype PageData = Zeroed | DirectoryData(pageId: PageId, dir: Directory) | BucketData(image: BucketImage)

  type Pool = BufferPoolManagerInstance<PageData>

  // ---------- the table that a view of the pool represents ----------

  ghost predicate IsBucket(d: PageData, capacity: nat) {
    d.Zeroed? || (d.BucketData? && WellFormed(d.image, capacity))
  }

  ghost function BucketPairs(d: PageData, capacity: nat): set<Pair> {
    if d.BucketData? && Sized(d.image, capacity) then Live(d.image, capacity) else {}
  }

  ghost function DirectoryOf(view: map<PageId, PageData>, dirId: PageId): Directory {
    if dirId in view && view[dirId].DirectoryData? then view[dirId].dir else Directory(0, [], [])
  }

  /** The buckets of the table. */
  ghost function BucketIds(view: map<PageId, PageData>, dirId: PageId): set<PageId> {
    var d := DirectoryOf(view, dirId);
    if Shape(d) then LiveIds(d) else {}
  }

  /** All pages that belong to the table. */
  ghost function TablePages(view: map<PageId, PageData>, dirId: PageId): set<PageId> {
    BucketIds(view, dirId) + {dirId}
  }

  ghost function TableOf(view: map<PageId, PageData>, dirId: PageId, capacity: nat): Table {
    Table(DirectoryOf(view, dirId),
          map id | id in BucketIds(view, dirId) && id in view :: BucketPairs(view[id], capacity))
  }

  /**
   The view holds a table: a directory page that knows its own id, pointing to other pages, all of them buckets, which
   together are consistent.
   */
  ghost predicate Represents(view: map<PageId, PageData>, dirId: PageId, capacity: nat, h: HashFunction) {
    && dirId in view && view[dirId].DirectoryData? && view[dirId].pageId == dirId && Shape(view[dirId].dir)
    && (forall id :: id in BucketIds(view, dirId) ==> id in view && id != dirId && IsBucket(view[id], capacity))
    && Consistent(TableOf(view, dirId, capacity), h, capacity)
  }

  /** Slot `j` of a bucket page is readable and holds the pair. */
  ghost predicate InSlot(d: PageData, j: nat, kv: Pair) {
    && d.BucketData? && j < |d.image.slots| && d.image.slots[j] == kv
    && j / 8 < |d.image.readable| && Readable(d.image, j)
  }

  /** The slots of a page, read through the bucket over it. */
  lemma SlotsOfPage(d: PageData, capacity: nat, image: BucketImage, at: seq<nat>, kvs: seq<Pair>)
    requires IsBucket(d, capacity) && WellFormed(image, capacity) && Live(image, capacity) == BucketPairs(d, capacity)
    requires (d.BucketData? ==> image == d.image) && |at| == |kvs|
    requires forall m :: 0 <= m < |at| ==> at[m] < capacity && Readable(image, at[m]) && image.slots[at[m]] == kvs[m]
    ensures forall m :: 0 <= m < |at| ==> InSlot(d, at[m], kvs[m])
  {
    hide Bitmap.Flag;
    forall m | 0 <= m < |at|
      ensures InSlot(d, at[m], kvs[m])
    {
      assert kvs[m] in Live(image, capacity);
    }
  }

  // ---------- typed pages ----------

  /** A zeroed page reads as a directory of global depth 0. */
  method LoadDirectory(d: PageData) returns (dir: DirectoryPage)
    requires d.Zeroed? || (d.DirectoryData? && Shape(d.dir))
    ensures dir.Valid()
    ensures d.DirectoryData? ==> dir.Dir() == d.dir && dir.pageId == d.pageId
    ensures d.Zeroed? ==> dir.globalDepth == 0
    ensures fresh(dir) && fresh(dir.localDepths) && fresh(dir.bucketPageIds)
  {
    if d.DirectoryData? {
      dir := new DirectoryPage(d.pageId, d.dir);
    } else {
      var zeros := seq(DIRECTORY_ARRAY_SIZE, _ => 0);
      dir := new DirectoryPage(0, Directory(0, zeros, zeros));
    }
  }

  method StoreDirectory(dir: DirectoryPage) returns (d: PageData)
    requires dir.Valid()
    ensures d == DirectoryData(dir.pageId, dir.Dir())
  {
    d := DirectoryData(dir.pageId, Directory(dir.globalDepth, dir.localDepths[..], dir.bucketPageIds[..]));
  }

  /** A zeroed page reads as an empty bucket. */
  method LoadBucket(d: PageData, capacity: nat) returns (bucket: BucketPage)
    requires capacity > 0 && IsBucket(d, capacity)
    ensures bucket.Valid() && bucket.capacity == capacity && bucket.Pairs() == BucketPairs(d, capacity)
    ensures d.BucketData? ==> bucket.Image() == d.image
    ensures fresh(bucket) && fresh(bucket.occupied) && fresh(bucket.readable) && fresh(bucket.slots)
  {
    var image: BucketImage;
    if d.BucketData? {
      image := d.image;
    } else {
      var anyPair: Pair := *;
      var bytes := seq(Bitmap.BytesFor(capacity), _ => 0 as bv8);
      image := BucketImage(bytes, bytes, seq(capacity, _ => anyPair));
      forall i: nat | i < capacity
        ensures !Occupied(image, i) && !Readable(image, i)
      {
        Bitmap.NoFlags(bytes, i);
      }
      assert Live(image, capacity) == {};
    }
    bucket := new BucketPage(image, capacity);
  }

  method StoreBucket(bucket: BucketPage) returns (d: PageData)
    requires bucket.Valid()
    ensures d == BucketData(bucket.Image())
  {
    d := BucketData(BucketImage(bucket.occupied[..], bucket.readable[..], bucket.slots[..]));
  }

  // ---------- frames ----------

  lemma OnePinMore(pins: multiset<PageId>, id: PageId)
    ensures PinnedIds(pins + multiset{id}) == PinnedIds(pins) + {id}
    ensures |PinnedIds(pins + multiset{id})| <= |PinnedIds(pins)| + 1
  {
    assert PinnedIds(pins + multiset{id}) == PinnedIds(pins) + {id};
  }

  /** Two fetches in a row can both be served exactly when the frames suffice for all pinned pages and these two. */
  lemma RoomIffFetched(pins: multiset<PageId>, a: PageId, b: PageId, frames: nat)
    requires |PinnedIds(pins)| <= frames
    ensures PinnedIds(pins + multiset{a} + multiset{b}) == PinnedIds(pins) + {a, b}
    ensures |PinnedIds(pins) + {a, b}| <= frames <==>
            && (a in pins || |PinnedIds(pins)| < frames)
            && (b in pins + multiset{a} || |PinnedIds(pins + multiset{a})| < frames)
  {
    OnePinMore(pins, a);
    OnePinMore(pins + multiset{a}, b);
    hide PinnedIds;
    assert PinnedIds(pins) + {a, b} == PinnedIds(pins) + {a} + {b};
    OneMore(PinnedIds(pins), a);
    OneMore(PinnedIds(pins) + {a}, b);
    PinnedIff(pins, a);
    PinnedIff(pins + multiset{a}, b);
  }

  lemma PinnedIff(pins: multiset<PageId>, id: PageId)
    ensures id in PinnedIds(pins) <==> id in pins
  {
  }

  lemma OneMore<T>(s: set<T>, x: T)
    ensures |s + {x}| == if x in s then |s| else |s| + 1
  {
    if x in s {
      assert s + {x} == s;
    }
  }

  lemma RoomForOne(pins: multiset<PageId>, a: PageId, b: PageId, frames: nat)
    ensures |PinnedIds(pins)| <= |PinnedIds(pins) + {a}| <= |PinnedIds(pins) + {a, b}|
    ensures |PinnedIds(pins) + {a, b}| <= |PinnedIds(pins) + {a}| + 1 <= |PinnedIds(pins)| + 2
    ensures |PinnedIds(pins) + {a}| <= frames ==> a in pins || |PinnedIds(pins)| < frames
  {
    OneMore(PinnedIds(pins), a);
    OneMore(PinnedIds(pins) + {a}, b);
    assert PinnedIds(pins) + {a, b} == PinnedIds(pins) + {a} + {b};
  }

  lemma LastPinLeft(pins: multiset<PageId>, a: PageId, b: PageId)
    ensures pins + multiset{a} + multiset{b} - multiset{b} == pins + multiset{a}
    ensures pins + multiset{a} - multiset{a} == pins
  {
  }

  lemma BothPinsLeft(pins: multiset<PageId>, a: PageId, b: PageId)
    ensures pins + multiset{a} + multiset{b} - multiset{a} == pins + multiset{b}
    ensures pins + multiset{b} - multiset{b} == pins
  {
  }

  lemma PaidOff(debt: set<PageId>, id: PageId)
    requires id !in debt
    ensures debt + {id} - {id} == debt
  {
  }

  lemma FirstPinLeft(pins: multiset<PageId>, a: PageId, b: PageId, c: PageId)
    ensures pins + multiset{a} + multiset{b} + multiset{c} - multiset{a} == pins + multiset{b} + multiset{c}
    ensures pins + multiset{b} + multiset{c} - multiset{b} == pins + multiset{c}
    ensures pins + multiset{c} - multiset{c} == pins
  {
  }

  /** Where a key lives: an issued bucket page that holds all stored pairs of the key. */
  lemma HomePage(view: map<PageId, PageData>, dirId: PageId, capacity: nat, h: HashFunction, key: Key)
    requires Represents(view, dirId, capacity, h)
    ensures var t := TableOf(view, dirId, capacity);
            && dirId in view && view[dirId] == DirectoryData(dirId, t.dir) && Shape(t.dir)
            && var id := Home(t, h, key);
            && id in view && id != dirId && id in TablePages(view, dirId) && dirId in TablePages(view, dirId)
            && IsBucket(view[id], capacity) && id in t.buckets && t.buckets[id] == BucketPairs(view[id], capacity)
            && (forall v :: Pair(key, v) in Pairs(t) <==> Pair(key, v) in BucketPairs(view[id], capacity))
  {
    hide Trie, Low, WellFormed;
    var t := TableOf(view, dirId, capacity);
    RouteIsLive(t.dir, h(key));
    forall v
      ensures Pair(key, v) in Pairs(t) <==> Pair(key, v) in t.buckets[Home(t, h, key)]
    {
      StoredAtHome(t, h, capacity, Pair(key, v));
    }
  }

  lemma TableHasIntegrity(view: map<PageId, PageData>, dirId: PageId, capacity: nat, h: HashFunction)
    requires Represents(view, dirId, capacity, h)
    ensures view[dirId].DirectoryData? && Shape(DirectoryOf(view, dirId)) && Integrity(DirectoryOf(view, dirId))
  {
    TrieHasIntegrity(DirectoryOf(view, dirId));
  }

  lemma OwnPage(view: map<PageId, PageData>, dirId: PageId)
    ensures dirId in TablePages(view, dirId)
  {
  }

  /** The pages that were not the table's still are not, and hold what they held. */
  ghost predicate Untouched(view: map<PageId, PageData>, view': map<PageId, PageData>, dirId: PageId) {
    forall id :: id in view && id !in TablePages(view, dirId) ==>
      id in view' && view'[id] == view[id] && id !in TablePages(view', dirId)
  }

  lemma UntouchedTransitive(v0: map<PageId, PageData>, v1: map<PageId, PageData>, v2: map<PageId, PageData>,
                            dirId: PageId)
    requires Untouched(v0, v1, dirId) && Untouched(v1, v2, dirId)
    ensures Untouched(v0, v2, dirId)
  {
    hide TablePages;
  }

  lemma UntouchedMeans(view: map<PageId, PageData>, view': map<PageId, PageData>, dirId: PageId)
    requires Untouched(view, view', dirId)
    ensures forall id :: id in view && id !in TablePages(view, dirId) ==>
              id in view' && view'[id] == view[id] && id !in TablePages(view', dirId)
  {
    hide TablePages;
  }

  lemma UntouchedSelf(view: map<PageId, PageData>, dirId: PageId)
    ensures Untouched(view, view, dirId)
  {
  }

  /** One live slot of depth 0, pointing to an empty bucket. */
  lemma InitialTable(view: map<PageId, PageData>, dirId: PageId, bucketId: PageId, h: HashFunction, capacity: nat)
    requires dirId in view && bucketId in view && dirId != bucketId
    requires view[dirId].DirectoryData? && view[dirId].pageId == dirId && view[bucketId] == Zeroed
    requires Shape(view[dirId].dir) && view[dirId].dir.globalDepth == 0
    requires view[dirId].dir.localDepths[0] == 0 && view[dirId].dir.bucketPageIds[0] == bucketId
    ensures Represents(view, dirId, capacity, h)
    ensures Pairs(TableOf(view, dirId, capacity)) == {}
    ensures TablePages(view, dirId) == {dirId, bucketId}
  {
    var d := view[dirId].dir;
    assert forall x: nat :: Low(x, 0) == 0;
    assert LiveIds(d) == {bucketId};
    assert Depth(d, 0) == d.globalDepth;
  }

  lemma InitialView(view: map<PageId, PageData>, view': map<PageId, PageData>, dirId: PageId, bucketId: PageId,
                    dir: Directory, h: HashFunction, capacity: nat)
    requires dirId !in view && bucketId !in view && dirId != bucketId
    requires view'.Keys == view.Keys + {dirId, bucketId}
    requires view'[dirId] == DirectoryData(dirId, dir) && view'[bucketId] == Zeroed
    requires forall id :: id in view ==> view'[id] == view[id]
    requires Shape(dir) && dir.globalDepth == 0 && dir.localDepths[0] == 0 && dir.bucketPageIds[0] == bucketId
    ensures Represents(view', dirId, capacity, h)
    ensures Pairs(TableOf(view', dirId, capacity)) == {}
    ensures TablePages(view', dirId) == {dirId, bucketId} && TableOf(view', dirId, capacity).dir.globalDepth == 0
    ensures TablePages(view', dirId) !! view.Keys
    ensures forall id :: id in view ==> id in view' && view'[id] == view[id]
  {
    InitialTable(view', dirId, bucketId, h, capacity);
  }

  // ---------- what writing pages does to the table ----------

  lemma WriteBucket(view: map<PageId, PageData>, dirId: PageId, capacity: nat, h: HashFunction, key: Key,
                    image: BucketImage)
    requires Represents(view, dirId, capacity, h) && WellFormed(image, capacity)
    ensures var t := TableOf(view, dirId, capacity);
            var id := Home(t, h, key);
            var view' := view[id := BucketData(image)];
            && TableOf(view', dirId, capacity) == t.(buckets := t.buckets[id := Live(image, capacity)])
            && TablePages(view', dirId) == TablePages(view, dirId) && Untouched(view, view', dirId)
            && (Consistent(TableOf(view', dirId, capacity), h, capacity) ==> Represents(view', dirId, capacity, h))
  {
    hide Trie, Low;
    HomePage(view, dirId, capacity, h, key);
    hide Live;
    var t, id := TableOf(view, dirId, capacity), Home(TableOf(view, dirId, capacity), h, key);
    var view' := view[id := BucketData(image)];
    assert DirectoryOf(view', dirId) == t.dir;
    assert TableOf(view', dirId, capacity).buckets == t.buckets[id := Live(image, capacity)];
  }

  lemma InsertView(view: map<PageId, PageData>, dirId: PageId, capacity: nat, h: HashFunction, kv: Pair,
                   image: BucketImage)
    requires Represents(view, dirId, capacity, h) && WellFormed(image, capacity)
    requires var t := TableOf(view, dirId, capacity);
             var id := Home(t, h, kv.key);
             && id in t.buckets && |t.buckets[id]| < capacity
             && Live(image, capacity) == t.buckets[id] + {kv}
    ensures var t := TableOf(view, dirId, capacity);
            var view' := view[Home(t, h, kv.key) := BucketData(image)];
            && Represents(view', dirId, capacity, h) && Untouched(view, view', dirId)
            && TableOf(view', dirId, capacity) == AddPair(t, h, kv)
            && TablePages(view', dirId) == TablePages(view, dirId)
  {
    WriteBucket(view, dirId, capacity, h, kv.key, image);
    AddKeepsConsistent(TableOf(view, dirId, capacity), h, capacity, kv);
  }

  lemma RemoveView(view: map<PageId, PageData>, dirId: PageId, capacity: nat, h: HashFunction, kv: Pair,
                   image: BucketImage)
    requires Represents(view, dirId, capacity, h) && WellFormed(image, capacity)
    requires var t := TableOf(view, dirId, capacity);
             var id := Home(t, h, kv.key);
             id in t.buckets && Live(image, capacity) == t.buckets[id] - {kv}
    ensures var t := TableOf(view, dirId, capacity);
            var view' := view[Home(t, h, kv.key) := BucketData(image)];
            && Represents(view', dirId, capacity, h) && Untouched(view, view', dirId)
            && TableOf(view', dirId, capacity) == DropPair(t, h, kv)
            && TablePages(view', dirId) == TablePages(view, dirId)
  {
    WriteBucket(view, dirId, capacity, h, kv.key, image);
    DropKeepsConsistent(TableOf(view, dirId, capacity), h, capacity, kv);
  }

  lemma SplitView(view: map<PageId, PageData>, dirId: PageId, capacity: nat, h: HashFunction, key: Key, newId: PageId,
                  d': Directory, kept: BucketImage, moved: BucketImage, view': map<PageId, PageData>)
    requires Represents(view, dirId, capacity, h) && newId !in view
    requires WellFormed(kept, capacity) && WellFormed(moved, capacity) && Shape(d')
    requires var t := TableOf(view, dirId, capacity);
             var id := Home(t, h, key);
             && Consistent(Table(d', t.buckets[id := Live(kept, capacity)][newId := Live(moved, capacity)]), h,
                           capacity)
             && LiveIds(d') == LiveIds(t.dir) + {newId}
             && view' == view[newId := Zeroed][dirId := DirectoryData(dirId, d')][id := BucketData(kept)]
                             [newId := BucketData(moved)]
    ensures var t := TableOf(view, dirId, capacity);
            var id := Home(t, h, key);
            && TableOf(view', dirId, capacity) ==
               Table(d', t.buckets[id := Live(kept, capacity)][newId := Live(moved, capacity)])
            && Represents(view', dirId, capacity, h) && Untouched(view, view', dirId)
            && TablePages(view', dirId) == TablePages(view, dirId) + {newId}
  {
    hide Trie, Low, Depth, Consistent, LiveIds;
    HomePage(view, dirId, capacity, h, key);
    hide Live;
    var t, id := TableOf(view, dirId, capacity), Home(TableOf(view, dirId, capacity), h, key);
    assert DirectoryOf(view', dirId) == d';
    assert TableOf(view', dirId, capacity).buckets ==
           t.buckets[id := Live(kept, capacity)][newId := Live(moved, capacity)];
  }

  /** What a consistent table says about the home bucket of a key. */
  lemma HomeBucket(view: map<PageId, PageData>, dirId: PageId, capacity: nat, h: HashFunction, key: Key)
    requires Represents(view, dirId, capacity, h)
    ensures var t := TableOf(view, dirId, capacity);
            var id := Home(t, h, key);
            && Consistent(t, h, capacity) && Shape(t.dir) && Trie(t.dir) && t.buckets.Keys == LiveIds(t.dir)
            && id in t.buckets && |t.buckets[id]| <= capacity
            && HomeDepth(t, h, key) <= t.dir.globalDepth <= MAX_DEPTH
  {
    hide Low;
    RouteIsLive(TableOf(view, dirId, capacity).dir, h(key));
  }

  /** The three pages a split writes, together: the stored set is the same, and the bucket of the key is deeper. */
  lemma SplitWhole(view: map<PageId, PageData>, dirId: PageId, capacity: nat, h: HashFunction, key: Key, newId: PageId,
                   d': Directory, kept: BucketImage, moved: BucketImage, view': map<PageId, PageData>)
    requires Represents(view, dirId, capacity, h) && newId !in view
    requires WellFormed(kept, capacity) && WellFormed(moved, capacity) && Shape(d')
    requires var t := TableOf(view, dirId, capacity);
             var id, d, x := Home(t, h, key), t.dir, h(key);
             && id in t.buckets && Depth(d, x) < MAX_DEPTH
             && (Depth(d, x) < d.globalDepth || 2 * Size(d) <= DIRECTORY_ARRAY_SIZE)
             && var w := Widened(d, x);
             && Shape(w) && Low(x, d.globalDepth) < Size(w) && IsSplit(w, Low(x, d.globalDepth), newId, d')
             && Live(kept, capacity) == (set kv | kv in t.buckets[id] && Route(d', h(kv.key)) == id)
             && Live(moved, capacity) == (set kv | kv in t.buckets[id] && Route(d', h(kv.key)) != id)
             && view' == view[newId := Zeroed][dirId := DirectoryData(dirId, d')][id := BucketData(kept)]
                             [newId := BucketData(moved)]
    ensures var t, t' := TableOf(view, dirId, capacity), TableOf(view', dirId, capacity);
            && Represents(view', dirId, capacity, h) && Untouched(view, view', dirId)
            && TablePages(view', dirId) == TablePages(view, dirId) + {newId}
            && Trie(t.dir) && t.buckets.Keys == LiveIds(t.dir) && SplitStep(t, h, key, newId, t')
  {
    hide Low, Live, Trie, Shape, IsSplit, IsBucket, BucketPairs;
    var t := TableOf(view, dirId, capacity);
    var id := Home(t, h, key);
    var t' := Table(d', t.buckets[id := Live(kept, capacity)][newId := Live(moved, capacity)]);
    hide TableOf, WellFormed;
    HomePage(view, dirId, capacity, h, key);
    NewPageNotLive(view, dirId, capacity, h, newId);
    SplitKeepsConsistent(t, h, capacity, key, newId, t');
    SplitDirectoryKeeps(t.dir, h(key), newId, d');
    SplitView(view, dirId, capacity, h, key, newId, d', kept, moved, view');
  }

  lemma NewPageNotLive(view: map<PageId, PageData>, dirId: PageId, capacity: nat, h: HashFunction, newId: PageId)
    requires Represents(view, dirId, capacity, h) && newId !in view
    ensures var t := TableOf(view, dirId, capacity);
            && Consistent(t, h, capacity) && Trie(t.dir) && Shape(t.dir) && t.buckets.Keys == LiveIds(t.dir)
            && newId !in t.buckets && newId !in LiveIds(t.dir)
  {
    hide Low, Trie;
  }

  lemma MergeView(view: map<PageId, PageData>, dirId: PageId, capacity: nat, h: HashFunction, d': Directory, p: PageId)
    requires Represents(view, dirId, capacity, h) && Shape(d')
    requires var t := TableOf(view, dirId, capacity);
             && LiveIds(d') == LiveIds(t.dir) - {p}
             && Consistent(Table(d', t.buckets - {p}), h, capacity)
    ensures var t := TableOf(view, dirId, capacity);
            var view' := view[dirId := DirectoryData(dirId, d')];
            && TableOf(view', dirId, capacity) == Table(d', t.buckets - {p}) && Represents(view', dirId, capacity, h)
            && Untouched(view, view', dirId)
  {
    hide Trie, Low, WellFormed, Live;
    var t, view' := TableOf(view, dirId, capacity), view[dirId := DirectoryData(dirId, d')];
    assert DirectoryOf(view', dirId) == d';
    assert TableOf(view', dirId, capacity).buckets == t.buckets - {p};
  }

  /** What the checks of `Merge` find out. */
  lemma MergeChecks(t: Table, h: HashFunction, capacity: nat, key: Key)
    requires Consistent(t, h, capacity)
    ensures var d, x := t.dir, h(key);
            var slot, l := Low(x, d.globalDepth), Depth(d, x);
            && Trie(d) && t.buckets.Keys == LiveIds(d) && Home(t, h, key) in t.buckets
            && slot < Size(d) && d.localDepths[slot] == l <= d.globalDepth
            && (l >= 1 ==>
                  var image := SplitImage(slot, l);
                  && image < Size(d) && d.bucketPageIds[image] == Route(d, image) != Home(t, h, key)
                  && d.localDepths[image] == Depth(d, image) >= l
                  && Low(image, l - 1) == Low(slot, l - 1) && Low(image, l) != Low(slot, l))
  {
    hide Low;
    var d, x := t.dir, h(key);
    RouteIsLive(d, x);
    var l, slot := Depth(d, x), Low(x, d.globalDepth);
    assert l <= d.globalDepth;
    if l >= 1 {
      var image := SplitImage(slot, l);
      SplitImageIsImage(d, x);
      SlotIsItsOwnHash(d, image);
      ImageIsElsewhere(d, x, image);
      LowLow(x, l - 1, d.globalDepth);
      LowLow(x, l, d.globalDepth);
    }
  }

  lemma MergeWhole(view: map<PageId, PageData>, dirId: PageId, capacity: nat, h: HashFunction, key: Key,
                   merged: Directory)
    requires Represents(view, dirId, capacity, h)
    requires var t := TableOf(view, dirId, capacity);
             && Trie(t.dir) && t.buckets.Keys == LiveIds(t.dir) && Mergeable(t, h, key)
             && var slot := Low(h(key), t.dir.globalDepth);
             && IsMerge(t.dir, slot, Route(t.dir, SplitImage(slot, HomeDepth(t, h, key))), merged)
    ensures var t := TableOf(view, dirId, capacity);
            var view' := view[dirId := DirectoryData(dirId, Shrunk(merged))];
            && Represents(view', dirId, capacity, h) && Untouched(view, view', dirId)
            && TablePages(view', dirId) <= TablePages(view, dirId)
            && MergeStep(t, h, key, merged, TableOf(view', dirId, capacity))
  {
    hide Low, IsBucket, BucketPairs;
    var t := TableOf(view, dirId, capacity);
    var t' := Table(Shrunk(merged), t.buckets - {Home(t, h, key)});
    MergeKeepsConsistent(t, h, capacity, key, merged, t');
    hide Trie, Mergeable, IsMerge;
    assert t'.buckets.Keys == t.buckets.Keys - {Home(t, h, key)};
    MergeView(view, dirId, capacity, h, t'.dir, Home(t, h, key));
  }

  class ExtendibleHashTable {
    const pool: Pool
    const hashFn: HashFunction
    const capacity: nat
    var directoryPageId: PageId

    ghost predicate Valid()
      reads this, pool, pool.replacer, pool.pages
    {
      && pool.Valid() && pool.zero == Zeroed && capacity > 0
      && Represents(pool.view, directoryPageId, capacity, hashFn)
      && (forall id :: id in TablePages(pool.view, directoryPageId) ==> id !in pool.debt)
    }

    ghost function Value(): Table
      reads this, pool
    {
      TableOf(pool.view, directoryPageId, capacity)
    }

    /** The two pages that every operation on `key` fetches. */
    ghost function Pages(key: Key): set<PageId>
      reads this, pool
    {
      if Shape(Value().dir) then {directoryPageId, Home(Value(), hashFn, key)} else {directoryPageId}
    }

    /** There are frames for all pinned pages and these. */
    ghost predicate Room(ids: set<PageId>)
      reads this, pool
    {
      |PinnedIds(pool.pins) + ids| <= pool.poolSize
    }

    /** `n` frames are not pinned. */
    ghost predicate Frames(n: nat)
      reads this, pool
    {
      |PinnedIds(pool.pins)| + n <= pool.poolSize
    }

    /** No client holds a pin on a page of the table. */
    ghost predicate Unheld()
      reads this, pool
    {
      forall id :: id in TablePages(pool.view, directoryPageId) ==> id !in pool.pins
    }

    /** Should table `t` be one in which the bucket of `key` is merged away, then nobody holds a pin on its page. */
    ghost predicate Deletable(t: Table, key: Key)
      reads this, pool
    {
      Trie(t.dir) && t.buckets.Keys == LiveIds(t.dir) && Mergeable(t, hashFn, key) ==>
        Home(t, hashFn, key) !in pool.pins
    }

    /** The table without the pair. */
    ghost function WithoutPair(kv: Pair): Table
      reads this, pool
    {
      var t := Value();
      if Shape(t.dir) && Home(t, hashFn, kv.key) in t.buckets then DropPair(t, hashFn, kv) else t
    }

    /** An insertion of `key` has to split its bucket. */
    ghost predicate SplitDue(key: Key)
      reads this, pool
    {
      var t := Value();
      && Shape(t.dir) && Home(t, hashFn, key) in t.buckets
      && |t.buckets[Home(t, hashFn, key)]| >= capacity && HomeDepth(t, hashFn, key) < MAX_DEPTH
    }

    /**
     What every operation leaves alone: the pins, the debts, and all pages that are not the table's. The pages that the
     table takes on are nobody else's.
     */
    twostate predicate Tidy()
      reads this, pool
    {
      && pool.pins == old(pool.pins) && pool.debt == old(pool.debt)
      && directoryPageId == old(directoryPageId)
      && Untouched(old(pool.view), pool.view, directoryPageId)
      && (forall id :: id in TablePages(pool.view, directoryPageId) ==>
            id in old(TablePages(pool.view, directoryPageId)) || id !in pool.pins)
    }

    /**
     Builds an empty table on two new pages. With a single frame to be had, the directory page is allocated, and its
     pin is never given back: the pins balance exactly when there is another number of free frames.
     */
    constructor (bpm: Pool, h: HashFunction, size: nat)
      requires bpm.Valid() && bpm.zero == Zeroed && size > 0
      modifies bpm, bpm.replacer, bpm.pages
      ensures pool == bpm && hashFn == h && capacity == size && pool.Valid()
      ensures |PinnedIds(old(bpm.pins))| + 2 <= bpm.poolSize ==>
                && Valid() && Pairs(Value()) == {}
                && bpm.pins == old(bpm.pins) && bpm.debt == old(bpm.debt)
                && TablePages(bpm.view, directoryPageId) !! old(bpm.view).Keys
                && Value().dir.globalDepth == 0 && |TablePages(bpm.view, directoryPageId)| == 2
      ensures |PinnedIds(old(bpm.pins))| + 1 == bpm.poolSize ==> bpm.pins == old(bpm.pins) + multiset{directoryPageId}
      ensures |PinnedIds(old(bpm.pins))| == bpm.poolSize ==> bpm.pins == old(bpm.pins)
      ensures forall id :: id in old(bpm.view) ==> id in bpm.view && bpm.view[id] == old(bpm.view)[id]
    {
      pool, hashFn, capacity, directoryPageId := bpm, h, size, INVALID_PAGE_ID;
      new;
      hide BufferPoolManagerInstance.Valid, Represents, TableOf, TablePages, TableModel.Pairs, PinnedIds;
      ghost var pins, debt, view := pool.pins, pool.debt, pool.view;
      var dirPage, dirId := pool.NewPgImp();
      if dirPage == null {
        return;
      }
      directoryPageId := dirId;
      OnePinMore(pins, dirId);
      FirstBucket(dirPage, view, pins, debt);
    }

    /** The zeroed page becomes a directory that knows its own id. */
    method InitDirectory(dirPage: Page<PageData>) returns (dir: DirectoryPage)
      requires pool.Valid() && pool.Holds(dirPage, directoryPageId) && dirPage.data == Zeroed
      requires directoryPageId in pool.pins
      modifies pool`view, pool`debt, dirPage
      ensures pool.Valid() && pool.Holds(dirPage, directoryPageId)
      ensures dir.Valid() && dir.globalDepth == 0 && dir.pageId == directoryPageId
      ensures fresh(dir) && fresh(dir.localDepths) && fresh(dir.bucketPageIds)
      ensures pool.view == old(pool.view)[directoryPageId := DirectoryData(directoryPageId, dir.Dir())]
      ensures pool.debt == old(pool.debt) + {directoryPageId}
    {
      hide BufferPoolManagerInstance.Valid;
      dir := LoadDirectory(dirPage.data);
      dir.pageId := directoryPageId;
      var data := StoreDirectory(dir);
      pool.Write(dirPage, directoryPageId, data);
    }

    /** The rest of the construction, with the new directory page pinned. */
    method FirstBucket(dirPage: Page<PageData>, ghost view: map<PageId, PageData>, ghost pins: multiset<PageId>,
                       ghost debt: set<PageId>)
      requires pool.Valid() && pool.zero == Zeroed && capacity > 0
      requires pool.Holds(dirPage, directoryPageId) && dirPage.data == Zeroed
      requires directoryPageId !in view && pool.view == view[directoryPageId := Zeroed]
      requires directoryPageId !in pins && directoryPageId !in debt
      requires pool.pins == pins + multiset{directoryPageId} && pool.debt == debt
      modifies pool, pool.replacer, pool.pages
      ensures pool.Valid()
      ensures |PinnedIds(pins + multiset{directoryPageId})| < pool.poolSize ==>
                && Valid() && Pairs(Value()) == {} && pool.pins == pins && pool.debt == debt
                && TablePages(pool.view, directoryPageId) !! view.Keys
                && Value().dir.globalDepth == 0 && |TablePages(pool.view, directoryPageId)| == 2
      ensures |PinnedIds(pins + multiset{directoryPageId})| == pool.poolSize ==> pool.pins == old(pool.pins)
      ensures forall id :: id in view ==> id in pool.view && pool.view[id] == view[id]
    {
      hide BufferPoolManagerInstance.Valid, Represents, TableOf, TablePages, TableModel.Pairs, PinnedIds, Pow2,
        ExtendibleHashTable.Value, DirectoryPage.Valid;
      var dir := InitDirectory(dirPage);
      var bucketPage, bucketId := pool.NewPgImp();
      if bucketPage == null {
        return;
      }
      LinkBucket(dirPage, dir, bucketId, view, pins, debt);
    }

    /** The last lines of the construction: the first slot gets the bucket page, and both pages are unpinned. */
    method LinkBucket(dirPage: Page<PageData>, dir: DirectoryPage, bucketId: PageId, ghost view: map<PageId, PageData>,
                      ghost pins: multiset<PageId>, ghost debt: set<PageId>)
      requires pool.Valid() && pool.zero == Zeroed && capacity > 0
      requires pool.Holds(dirPage, directoryPageId) && dir.pageId == directoryPageId != bucketId
      requires dir.Valid() && dir.globalDepth == 0
      requires {dir.localDepths as object, dir.bucketPageIds as object} !!
               {pool as object, pool.replacer as object} + set p: Page<PageData> | p in pool.pages :: p as object
      requires directoryPageId !in view && bucketId !in view
      requires pool.view.Keys == view.Keys + {directoryPageId, bucketId} && pool.view[bucketId] == Zeroed
      requires forall id :: id in view ==> pool.view[id] == view[id]
      requires directoryPageId !in pins && directoryPageId !in debt && bucketId !in pins && bucketId !in debt
      requires pool.pins == pins + multiset{directoryPageId} + multiset{bucketId}
      requires pool.debt == debt + {directoryPageId}
      modifies pool, pool.replacer, pool.pages, dir.localDepths, dir.bucketPageIds
      ensures Valid() && Pairs(Value()) == {} && pool.pins == pins && pool.debt == debt
      ensures TablePages(pool.view, directoryPageId) !! view.Keys
      ensures Value().dir.globalDepth == 0 && |TablePages(pool.view, directoryPageId)| == 2
      ensures forall id :: id in view ==> id in pool.view && pool.view[id] == view[id]
    {
      hide BufferPoolManagerInstance.Valid, Represents, TableOf, TablePages, TableModel.Pairs, PinnedIds;
      dir.SetBucketPageId(0, bucketId);
      dir.SetLocalDepth(0, 0);
      ghost var d := dir.Dir();
      var data := StoreDirectory(dir);
      UnpinNew(dirPage, data, bucketId, pins, debt);
      InitialView(view, pool.view, directoryPageId, bucketId, d, hashFn, capacity);
    }

    /** Both new pages are unpinned, the directory page dirty. */
    method UnpinNew(dirPage: Page<PageData>, data: PageData, bucketId: PageId, ghost pins: multiset<PageId>,
                    ghost debt: set<PageId>)
      requires pool.Valid() && pool.Holds(dirPage, directoryPageId) && directoryPageId != bucketId
      requires directoryPageId !in debt && bucketId !in debt
      requires pool.pins == pins + multiset{directoryPageId} + multiset{bucketId}
      requires pool.debt == debt + {directoryPageId}
      modifies pool, pool.replacer, pool.pages
      ensures pool.Valid() && pool.view == old(pool.view)[directoryPageId := data]
      ensures pool.pins == pins && pool.debt == debt
    {
      hide BufferPoolManagerInstance.Valid;
      PaidOff(debt, directoryPageId);
      LastPinLeft(pins, directoryPageId, bucketId);
      var ok := pool.UnpinPgImp(bucketId, false);
      assert ok;
      PutBack(dirPage, directoryPageId, data);
    }

    /** The new contents of a page go to its frame, and the frame is unpinned dirty. */
    method PutBack(page: Page<PageData>, id: PageId, data: PageData)
      requires pool.Valid() && pool.Holds(page, id) && id in pool.pins
      modifies pool, pool.replacer, pool.pages
      ensures pool.Valid() && pool.PinnedStay()
      ensures pool.view == old(pool.view)[id := data]
      ensures pool.pins == old(pool.pins) - multiset{id} && pool.pageTable == old(pool.pageTable)
      ensures pool.debt == if id in old(pool.debt) then old(pool.debt) - {id} else old(pool.debt)
    {
      hide BufferPoolManagerInstance.Valid;
      pool.Write(page, id, data);
      var ok := pool.UnpinPgImp(id, true);
      assert ok;
    }

    method FetchDirectoryPage() returns (page: Page<PageData>, dir: DirectoryPage)
      requires Valid() && Room({directoryPageId})
      modifies pool, pool.replacer, pool.pages
      ensures pool.Valid() && pool.view == old(pool.view) && pool.debt == old(pool.debt)
      ensures pool.pins == old(pool.pins) + multiset{directoryPageId}
      ensures pool.Holds(page, directoryPageId)
      ensures dir.Valid() && dir.Dir() == old(Value()).dir && dir.pageId == directoryPageId
      ensures fresh(dir) && fresh(dir.localDepths) && fresh(dir.bucketPageIds)
    {
      hide BufferPoolManagerInstance.Valid, Consistent, PinnedIds;
      RoomForOne(pool.pins, directoryPageId, directoryPageId, pool.poolSize);
      var fetched := pool.FetchPgImp(directoryPageId);
      page := fetched;
      dir := LoadDirectory(page.data);
    }

    /** The opening of a section under the exclusive table latch: both pages pinned, and typed. */
    method FetchHome(key: Key)
      returns (dirPage: Page<PageData>, dir: DirectoryPage, id: PageId, page: Page<PageData>, bucket: BucketPage)
      requires Valid() && Room(Pages(key))
      modifies pool, pool.replacer, pool.pages
      ensures pool.Valid() && pool.view == old(pool.view) && pool.debt == old(pool.debt)
      ensures pool.pins == old(pool.pins) + multiset{directoryPageId} + multiset{id}
      ensures PinnedIds(pool.pins) == PinnedIds(old(pool.pins)) + Pages(key)
      ensures pool.Holds(dirPage, directoryPageId) && pool.Holds(page, id)
      ensures dir.Valid() && dir.Dir() == Value().dir && dir.pageId == directoryPageId
      ensures bucket.Valid() && bucket.capacity == capacity
      ensures directoryPageId !in pool.debt && id !in pool.debt
      ensures AtHome(key, id) && bucket.Pairs() == BucketPairs(pool.view[id], capacity)
      ensures fresh(dir) && fresh(dir.localDepths) && fresh(dir.bucketPageIds)
      ensures fresh(bucket) && fresh(bucket.occupied) && fresh(bucket.readable) && fresh(bucket.slots)
      ensures NoOverlap(dir, bucket)
    {
      hide BufferPoolManagerInstance.Valid, Represents, TableOf, TablePages, TableModel.Pairs, PinnedIds, BucketPairs,
        IsBucket;
      HomePage(pool.view, directoryPageId, capacity, hashFn, key);
      ghost var home := Home(Value(), hashFn, key);
      RoomForOne(pool.pins, directoryPageId, home, pool.poolSize);
      RoomIffFetched(pool.pins, directoryPageId, home, pool.poolSize);
      dirPage, dir := FetchDirectoryPage();
      id := KeyToPageId(dir, hashFn(key));
      var fetched := pool.FetchPgImp(id);
      page := fetched;
      bucket := LoadBucket(page.data, capacity);
    }

    /** `id` is the page of the bucket of `key`. */
    ghost predicate AtHome(key: Key, id: PageId)
      reads this, pool
    {
      && Shape(Value().dir) && id == Home(Value(), hashFn, key)
      && id in pool.view && id != directoryPageId
      && id in TablePages(pool.view, directoryPageId) && directoryPageId in TablePages(pool.view, directoryPageId)
      && id in Value().buckets && Value().buckets[id] == BucketPairs(pool.view[id], capacity)
      && (forall v :: Pair(key, v) in Pairs(Value()) <==> Pair(key, v) in BucketPairs(pool.view[id], capacity))
    }

    /**
     The opening of a section under the shared table latch: both pages are pinned, next to those that other threads have
     pinned. One of the assertions on the fetched pages trips exactly when the frames do not suffice for all of them.
     */
    method Enter(key: Key) returns (trapped: bool, page: Page?<PageData>, id: PageId)
      requires Valid()
      modifies pool, pool.replacer, pool.pages
      ensures trapped <==> !old(Room(Pages(key)))
      ensures Shape(old(Value()).dir)
      ensures trapped <==>
                |PinnedIds(old(pool.pins)) + {directoryPageId, Home(old(Value()), hashFn, key)}| > pool.poolSize
      ensures !trapped ==>
                && Valid() && pool.view == old(pool.view) && pool.debt == old(pool.debt) && pool.PinnedStay()
                && pool.pins == old(pool.pins) + multiset{directoryPageId} + multiset{id}
                && page != null && pool.Holds(page, id) && AtHome(key, id)
    {
      hide BufferPoolManagerInstance.Valid, Represents, TableOf, TablePages, TableModel.Pairs, PinnedIds, BucketPairs,
        IsBucket, DirectoryPage.Dir, BufferPoolManagerInstance.At, BufferPoolManagerInstance.State;
      HomePage(pool.view, directoryPageId, capacity, hashFn, key);
      pool.PinnedFit();
      RoomIffFetched(pool.pins, directoryPageId, Home(Value(), hashFn, key), pool.poolSize);
      page, id := null, INVALID_PAGE_ID;
      var dirPage := pool.FetchPgImp(directoryPageId);
      if dirPage == null {
        return true, null, id;
      }
      pool.PinnedFit();
      var dir := LoadDirectory(dirPage.data);
      id := KeyToPageId(dir, hashFn(key));
      page := pool.FetchPgImp(id);
      trapped := page == null;
    }

    /** The typed bucket page in a frame that a thread holds pinned. */
    method OpenBucket(key: Key, page: Page<PageData>, id: PageId) returns (bucket: BucketPage)
      requires Valid() && AtHome(key, id) && pool.Holds(page, id)
      ensures bucket.Valid() && bucket.capacity == capacity && bucket.Pairs() == BucketPairs(pool.view[id], capacity)
      ensures pool.view[id].BucketData? ==> bucket.Image() == pool.view[id].image
      ensures IsBucket(pool.view[id], capacity)
      ensures fresh(bucket) && fresh(bucket.occupied) && fresh(bucket.readable) && fresh(bucket.slots)
    {
      hide BufferPoolManagerInstance.Valid, Represents, TableOf, TablePages, TableModel.Pairs, BucketPairs, IsBucket;
      HomePage(pool.view, directoryPageId, capacity, hashFn, key);
      pool.HeldIsCurrent(page, id);
      bucket := LoadBucket(page.data, capacity);
    }

    /** The home page of a key, as `AtHome` has it. */
    lemma HomeIsAtHome(key: Key)
      requires Valid()
      ensures Shape(Value().dir) && AtHome(key, Home(Value(), hashFn, key))
    {
      hide BufferPoolManagerInstance.Valid, Represents, TableOf, TablePages, TableModel.Pairs, BucketPairs, IsBucket;
      HomePage(pool.view, directoryPageId, capacity, hashFn, key);
    }

    // ---------- lookup ----------

    /** The rest of a lookup, with the pages pinned: the values are collected, and both pages are unpinned. */
    method GetInside(key: Key, result: seq<Value>, page: Page<PageData>, id: PageId, ghost pins: multiset<PageId>)
      returns (found: bool, values: seq<Value>, ghost at: seq<nat>)
      requires Valid() && AtHome(key, id) && pool.Holds(page, id)
      requires pool.pins == pins + multiset{directoryPageId} + multiset{id}
      modifies pool, pool.replacer, pool.pages
      ensures Valid() && pool.view == old(pool.view) && pool.pins == pins && pool.debt == old(pool.debt)
      ensures pool.PinnedStay()
      ensures result <= values
      ensures forall v :: multiset(values[|result|..])[v] == if Pair(key, v) in Pairs(Value()) then 1 else 0
      ensures found <==> exists v :: Pair(key, v) in Pairs(Value())
      ensures |values| == |result| + |at| && forall m, n :: 0 <= m < n < |at| ==> at[m] < at[n]
      ensures forall m :: 0 <= m < |at| ==> InSlot(pool.view[id], at[m], Pair(key, values[|result| + m]))
    {
      hide BufferPoolManagerInstance.Valid, Represents, TableOf, TablePages, TableModel.Pairs, PinnedIds, BucketPairs,
        WellFormed, Live, InSlot, Readable, IsBucket;
      var bucket := OpenBucket(key, page, id);
      found, values, at := bucket.GetValue(key, result);
      ghost var kvs := seq(|at|, m requires 0 <= m < |at| => Pair(key, values[|result| + m]));
      SlotsOfPage(pool.view[id], capacity, bucket.Image(), at, kvs);
      UnpinBoth(directoryPageId, id, pins);
    }

    /** The values come in the order of the slots `at` of the home page. */
    method GetValue(key: Key, result: seq<Value>)
      returns (found: bool, values: seq<Value>, ghost at: seq<nat>)
      requires Valid() && Room(Pages(key))
      modifies pool, pool.replacer, pool.pages
      ensures Valid() && Tidy() && pool.view == old(pool.view)
      ensures result <= values
      ensures forall v :: multiset(values[|result|..])[v] == if Pair(key, v) in Pairs(Value()) then 1 else 0
      ensures found <==> exists v :: Pair(key, v) in Pairs(Value())
      ensures Home(Value(), hashFn, key) in pool.view
      ensures |values| == |result| + |at| && forall m, n :: 0 <= m < n < |at| ==> at[m] < at[n]
      ensures forall m :: 0 <= m < |at| ==>
                InSlot(pool.view[Home(Value(), hashFn, key)], at[m], Pair(key, values[|result| + m]))
    {
      hide BufferPoolManagerInstance.Valid, Represents, TableOf, TablePages, TableModel.Pairs, PinnedIds, BucketPairs;
      UntouchedSelf(pool.view, directoryPageId);
      var trapped, page, id := Enter(key);
      assert !trapped;
      found, values, at := GetInside(key, result, page, id, old(pool.pins));
    }

    /**
     The insertion into a bucket with room that `Insert` and `SplitInsert` share: the directory page is unpinned
     clean, and the bucket page dirty.
     */
    method InsertHere(key: Key, value: Value, page: Page<PageData>, id: PageId, bucket: BucketPage,
                      ghost pins: multiset<PageId>) returns (res: bool)
      requires Valid() && AtHome(key, id) && pool.Holds(page, id)
      requires pool.pins == pins + multiset{directoryPageId} + multiset{id}
      requires directoryPageId !in pool.debt && id !in pool.debt
      requires bucket.Valid() && bucket.capacity == capacity && bucket.Pairs() == BucketPairs(pool.view[id], capacity)
      requires |bucket.Pairs()| < capacity
      requires Distant(bucket)
      modifies pool, pool.replacer, pool.pages, bucket.occupied, bucket.readable, bucket.slots
      ensures Valid() && Untouched(old(pool.view), pool.view, directoryPageId)
      ensures TablePages(pool.view, directoryPageId) == old(TablePages(pool.view, directoryPageId))
      ensures pool.pins == pins && pool.debt == old(pool.debt) && pool.PinnedStay()
      ensures res <==> Pair(key, value) !in old(Value()).buckets[id]
      ensures Value() == AddPair(old(Value()), hashFn, Pair(key, value))
    {
      hide BufferPoolManagerInstance.Valid, Represents, TableOf, TablePages, TableModel.Pairs, BucketPairs, Untouched,
        WellFormed, Live, PinnedIds;
      ghost var at;
      res, at := bucket.Insert(key, value);
      ghost var image := bucket.Image();
      var data := StoreBucket(bucket);
      BothPinsLeft(pins, directoryPageId, id);
      var ok := pool.UnpinPgImp(directoryPageId, false);
      assert ok;
      PutBack(page, id, data);
      InsertView(old(pool.view), directoryPageId, capacity, hashFn, Pair(key, value), image);
    }

    /** Both pages are unpinned clean. */
    method UnpinBoth(first: PageId, second: PageId, ghost pins: multiset<PageId>)
      requires pool.Valid() && first !in pool.debt && second !in pool.debt
      requires pool.pins == pins + multiset{first} + multiset{second}
      modifies pool, pool.replacer, pool.pages
      ensures pool.Valid() && pool.view == old(pool.view) && pool.pins == pins && pool.debt == old(pool.debt)
      ensures pool.PinnedStay()
    {
      hide BufferPoolManagerInstance.Valid, PinnedIds;
      BothPinsLeft(pins, first, second);
      var ok := pool.UnpinPgImp(first, false);
      assert ok;
      ok := pool.UnpinPgImp(second, false);
      assert ok;
    }

    /** The memory of a typed page is not part of the pool. */
    ghost predicate Distant(bucket: BucketPage) {
      && bucket.occupied as object !in {pool as object, pool.replacer as object}
      && bucket.readable as object !in {pool as object, pool.replacer as object}
      && bucket.slots as object !in {pool as object, pool.replacer as object}
      && (forall p: Page<PageData> :: p in pool.pages ==>
            p as object != bucket.occupied && p as object != bucket.readable && p as object != bucket.slots)
    }

    /** Nor do a directory page and a bucket page share memory. */
    ghost predicate NoOverlap(dir: DirectoryPage, bucket: BucketPage) {
      && dir.localDepths as object !in {bucket.occupied as object, bucket.readable as object, bucket.slots as object}
      && dir.bucketPageIds as object !in {bucket.occupied as object, bucket.readable as object, bucket.slots as object}
    }

    ghost predicate DistantDirectory(dir: DirectoryPage) {
      && dir.localDepths as object !in {pool as object, pool.replacer as object}
      && dir.bucketPageIds as object !in {pool as object, pool.replacer as object}
      && (forall p: Page<PageData> :: p in pool.pages ==>
            p as object != dir.localDepths && p as object != dir.bucketPageIds)
    }

    /**
     A split is due below the maximal depth when as many stored pairs as a bucket has room for agree with the key on the
     bits of its bucket.
     */
    lemma SplitDueMeans(key: Key)
      requires Valid()
      ensures Shape(Value().dir)
      ensures SplitDue(key) <==>
                && HomeDepth(Value(), hashFn, key) < MAX_DEPTH
                && |Agreeing(Pairs(Value()), hashFn, key, HomeDepth(Value(), hashFn, key))| >= capacity
    {
      hide BufferPoolManagerInstance.Valid, TableOf, TablePages, TableModel.Pairs, Low, Agreeing;
      HomeHoldsAgreeing(Value(), hashFn, capacity, key);
    }

    /** The two pages of a key take two frames more if nobody holds them. */
    lemma UnheldRoom(key: Key)
      requires Valid()
      ensures Unheld() ==> |PinnedIds(pool.pins) + Pages(key)| == |PinnedIds(pool.pins)| + 2
    {
      hide BufferPoolManagerInstance.Valid, PinnedIds;
      HomePage(pool.view, directoryPageId, capacity, hashFn, key);
      var home := Home(Value(), hashFn, key);
      PinnedIff(pool.pins, directoryPageId);
      PinnedIff(pool.pins, home);
      OneMore(PinnedIds(pool.pins), directoryPageId);
      OneMore(PinnedIds(pool.pins) + {directoryPageId}, home);
      assert PinnedIds(pool.pins) + Pages(key) == PinnedIds(pool.pins) + {directoryPageId} + {home};
    }

    // ---------- insertion ----------

    /** The rest of the first section of an insertion: a bucket with room takes the pair, unless it has it. */
    method InsertInside(key: Key, value: Value, page: Page<PageData>, id: PageId, ghost pins: multiset<PageId>)
      returns (done: bool, res: bool)
      requires Valid() && AtHome(key, id) && pool.Holds(page, id)
      requires pool.pins == pins + multiset{directoryPageId} + multiset{id}
      modifies pool, pool.replacer, pool.pages
      ensures Valid() && Untouched(old(pool.view), pool.view, directoryPageId)
      ensures TablePages(pool.view, directoryPageId) == old(TablePages(pool.view, directoryPageId))
      ensures pool.pins == pins && pool.debt == old(pool.debt) && pool.PinnedStay()
      ensures Shape(old(Value()).dir) && Home(old(Value()), hashFn, key) in old(Value()).buckets
      ensures InsertSection(old(Value()), hashFn, capacity, Pair(key, value), Value(), done, res)
    {
      hide BufferPoolManagerInstance.Valid, Represents, TableOf, TablePages, PinnedIds, BucketPairs, Untouched,
        Consistent, BufferPoolManagerInstance.Holds, Trie, WellFormed, Live, Depth;
      HomeBucket(pool.view, directoryPageId, capacity, hashFn, key);
      UntouchedSelf(pool.view, directoryPageId);
      var bucket := OpenBucket(key, page, id);
      var full := bucket.IsFull();
      if !full {
        res := InsertHere(key, value, page, id, bucket, pins);
        done := true;
      } else {
        UnpinBoth(id, directoryPageId, pins);
        done, res := false, false;
      }
    }

    /** `Insert` up to the release of its latches. */
    method InsertLatched(key: Key, value: Value) returns (done: bool, res: bool)
      requires Valid() && Room(Pages(key))
      modifies pool, pool.replacer, pool.pages
      ensures Valid() && Tidy()
      ensures Shape(old(Value()).dir) && Home(old(Value()), hashFn, key) in old(Value()).buckets
      ensures InsertSection(old(Value()), hashFn, capacity, Pair(key, value), Value(), done, res)
    {
      hide BufferPoolManagerInstance.Valid, Represents, TableOf, TablePages, PinnedIds, BucketPairs, Untouched,
        Consistent, BufferPoolManagerInstance.Holds, Trie, InsertSection;
      HomeBucket(pool.view, directoryPageId, capacity, hashFn, key);
      var trapped, page, id := Enter(key);
      assert !trapped;
      done, res := InsertInside(key, value, page, id, old(pool.pins));
    }

    /**
     `SplitInsert` up to the release of its latch. `newId` is the page of the split image, if there was a split. The
     assertion that a new page is to be had trips exactly when a split is due and there is no frame for a third page.
     */
    method SplitInsertLatched(key: Key, value: Value)
      returns (done: bool, res: bool, trapped: bool, ghost newId: PageId)
      requires Valid() && Room(Pages(key))
      modifies pool, pool.replacer, pool.pages
      ensures trapped <==> old(SplitDue(key)) && |PinnedIds(old(pool.pins)) + old(Pages(key))| == pool.poolSize
      ensures !trapped ==> Valid() && Tidy()
      ensures Consistent(old(Value()), hashFn, capacity) && Home(old(Value()), hashFn, key) in old(Value()).buckets
      ensures !trapped ==>
                SplitSection(old(Value()), hashFn, capacity, Pair(key, value), newId, Value(), done, res)
    {
      hide BufferPoolManagerInstance.Valid, Represents, TableOf, TablePages, PinnedIds, BucketPairs, Untouched,
        Consistent, BufferPoolManagerInstance.Holds, Trie, Low, Pow2, Shape, SplitStep, WellFormed, Live, Depth;
      ghost var pins, t := pool.pins, Value();
      newId, trapped, res := INVALID_PAGE_ID, false, false;
      HomeBucket(pool.view, directoryPageId, capacity, hashFn, key);
      var dirPage, dir, id, page, bucket := FetchHome(key);
      var full := bucket.IsFull();
      if !full {
        res := InsertHere(key, value, page, id, bucket, pins);
        done := true;
      } else {
        done, trapped, newId := SplitFull(key, dirPage, dir, id, page, bucket, pins);
      }
    }

    /** A full bucket is split, unless it has the maximal depth. */
    method SplitFull(key: Key, dirPage: Page<PageData>, dir: DirectoryPage, id: PageId, page: Page<PageData>,
                     bucket: BucketPage, ghost pins: multiset<PageId>)
      returns (failed: bool, trapped: bool, ghost newId: PageId)
      requires Valid() && AtHome(key, id) && pool.Holds(dirPage, directoryPageId) && pool.Holds(page, id)
      requires pool.pins == pins + multiset{directoryPageId} + multiset{id}
      requires directoryPageId !in pool.debt && id !in pool.debt
      requires dir.Valid() && dir.pageId == directoryPageId && dir.Dir() == Value().dir
      requires bucket.Valid() && bucket.capacity == capacity && bucket.Pairs() == BucketPairs(pool.view[id], capacity)
      requires |bucket.Pairs()| == capacity
      requires Distant(bucket) && DistantDirectory(dir)
      requires NoOverlap(dir, bucket)
      modifies pool, pool.replacer, pool.pages, dir`globalDepth, dir.localDepths, dir.bucketPageIds, bucket.readable
      ensures trapped <==>
                old(HomeDepth(Value(), hashFn, key)) < MAX_DEPTH && |PinnedIds(old(pool.pins))| == pool.poolSize
      ensures !trapped ==>
                && Valid() && Untouched(old(pool.view), pool.view, directoryPageId)
                && pool.pins == pins && pool.debt == old(pool.debt)
                && (forall p :: p in TablePages(pool.view, directoryPageId) ==>
                      p in old(TablePages(pool.view, directoryPageId)) || p !in pins)
      ensures Trie(old(Value()).dir) && old(Value()).buckets.Keys == LiveIds(old(Value()).dir)
      ensures failed <==> old(HomeDepth(Value(), hashFn, key)) >= MAX_DEPTH
      ensures failed ==> Value() == old(Value())
      ensures !failed && !trapped ==> SplitStep(old(Value()), hashFn, key, newId, Value())
    {
      hide BufferPoolManagerInstance.Valid, Represents, TableOf, TablePages, PinnedIds, BucketPairs, Untouched,
        Consistent, BufferPoolManagerInstance.Holds, Trie, Low, Pow2, Shape, SplitStep;
      newId := INVALID_PAGE_ID;
      HomeBucket(pool.view, directoryPageId, capacity, hashFn, key);
      UntouchedSelf(pool.view, directoryPageId);
      var slot := KeyToDirectoryIndex(dir, hashFn(key));
      var deeper := DeepenSlot(dir, slot, hashFn(key));
      if deeper {
        trapped, newId := FinishSplit(key, slot, dirPage, dir, id, page, bucket, pins);
        failed := false;
      } else {
        UnpinBoth(dir.pageId, id, pins);
        failed, trapped := true, false;
      }
    }

    /**
     The rest of a split: a new page for the split image, the new routes, the redistribution of the pairs, and three
     dirty unpins.
     */
    method FinishSplit(key: Key, slot: nat, dirPage: Page<PageData>, dir: DirectoryPage, id: PageId,
                       page: Page<PageData>, bucket: BucketPage, ghost pins: multiset<PageId>)
      returns (trapped: bool, ghost newId: PageId)
      requires Valid() && AtHome(key, id) && pool.Holds(dirPage, directoryPageId) && pool.Holds(page, id)
      requires pool.pins == pins + multiset{directoryPageId} + multiset{id}
      requires directoryPageId !in pool.debt && id !in pool.debt
      requires dir.Valid() && dir.pageId == directoryPageId
      requires var d, x := Value().dir, hashFn(key);
               && Depth(d, x) < MAX_DEPTH && slot == Low(x, d.globalDepth)
               && (Depth(d, x) < d.globalDepth || 2 * Size(d) <= DIRECTORY_ARRAY_SIZE)
               && var w := Widened(d, x);
               && Shape(w) && slot < Size(w) && w.localDepths[slot] < w.globalDepth
               && dir.Dir() == w.(localDepths := w.localDepths[slot := w.localDepths[slot] + 1])
      requires bucket.Valid() && bucket.capacity == capacity && bucket.Pairs() == BucketPairs(pool.view[id], capacity)
      requires |bucket.Pairs()| == capacity
      requires Trie(Value().dir) && Value().buckets.Keys == LiveIds(Value().dir)
      requires Distant(bucket) && DistantDirectory(dir)
      requires NoOverlap(dir, bucket)
      modifies pool, pool.replacer, pool.pages, dir.localDepths, dir.bucketPageIds, bucket.readable
      ensures trapped <==> |PinnedIds(old(pool.pins))| == pool.poolSize
      ensures !trapped ==>
                && Valid() && Untouched(old(pool.view), pool.view, directoryPageId)
                && pool.pins == pins && pool.debt == old(pool.debt)
                && (forall p :: p in TablePages(pool.view, directoryPageId) ==>
                      p in old(TablePages(pool.view, directoryPageId)) || p !in pins)
      ensures !trapped ==> SplitStep(old(Value()), hashFn, key, newId, Value())
    {
      hide BufferPoolManagerInstance.Valid, Represents, TableOf, TablePages, TableModel.Pairs, PinnedIds, Untouched,
        Rivals, Low, Pow2, Trie, Shape, WellFormed, Live, IsSplit, SplitStep, Widened, Sized,
        DirectoryPage.Dir, BucketPage.Image, LiveIds;
      ghost var w := Widened(Value().dir, hashFn(key));
      var splitPage, splitId, split := NewBucket();
      newId := splitId;
      trapped := splitPage == null || split == null;
      if trapped {
        return;
      }
      SplitDirectory(dir, slot, splitId, w);
      Redistribute(dir, hashFn, id, bucket, split);
      ghost var d', kept, moved := dir.Dir(), bucket.Image(), split.Image();
      StoreSplit(dirPage, dir, page, id, bucket, splitPage, splitId, split, pins);
      SplitWhole(old(pool.view), directoryPageId, capacity, hashFn, key, splitId, d', kept, moved, pool.view);
    }

    /** A new page, read as an empty bucket. */
    method NewBucket() returns (page: Page?<PageData>, id: PageId, bucket: BucketPage?)
      requires pool.Valid() && pool.zero == Zeroed && capacity > 0
      modifies pool, pool.replacer, pool.pages
      ensures pool.Valid() && pool.PinnedStay() && pool.debt == old(pool.debt)
      ensures page == null <==> |PinnedIds(old(pool.pins))| == pool.poolSize
      ensures page == null <==> bucket == null
      ensures page != null ==>
                && id !in old(pool.view) && id !in old(pool.pins) && id !in pool.debt
                && pool.view == old(pool.view)[id := Zeroed] && pool.pins == old(pool.pins) + multiset{id}
                && pool.Holds(page, id)
                && bucket.Valid() && bucket.capacity == capacity && bucket.Pairs() == {}
                && fresh(bucket) && fresh(bucket.occupied) && fresh(bucket.readable) && fresh(bucket.slots)
    {
      hide BufferPoolManagerInstance.Valid, PinnedIds;
      bucket := null;
      page, id := pool.NewPgImp();
      if page != null {
        bucket := LoadBucket(page.data, capacity);
      }
    }

    /** The three typed pages of a split go back to their frames. */
    method StoreSplit(dirPage: Page<PageData>, dir: DirectoryPage, page: Page<PageData>, id: PageId, bucket: BucketPage,
                      splitPage: Page<PageData>, splitId: PageId, split: BucketPage, ghost pins: multiset<PageId>)
      requires pool.Valid() && dir.Valid() && bucket.Valid() && split.Valid()
      requires pool.Holds(dirPage, dir.pageId) && pool.Holds(page, id) && pool.Holds(splitPage, splitId)
      requires pool.pins == pins + multiset{dir.pageId} + multiset{id} + multiset{splitId}
      requires dir.pageId !in pool.debt && id !in pool.debt && splitId !in pool.debt
      modifies pool, pool.replacer, pool.pages
      ensures pool.Valid()
      ensures pool.view == old(pool.view[dir.pageId := DirectoryData(dir.pageId, dir.Dir())]
                                        [id := BucketData(bucket.Image())][splitId := BucketData(split.Image())])
      ensures pool.pins == pins && pool.debt == old(pool.debt)
    {
      hide BufferPoolManagerInstance.Valid, BufferPoolManagerInstance.Holds, WellFormed, Shape;
      var dirData := StoreDirectory(dir);
      var data := StoreBucket(bucket);
      var splitData := StoreBucket(split);
      PutBackAll(dirPage, dir.pageId, dirData, page, id, data, splitPage, splitId, splitData, pins);
    }

    /** The three dirty unpins at the end of a split. */
    method PutBackAll(dirPage: Page<PageData>, dirId: PageId, dirData: PageData,
                      page: Page<PageData>, id: PageId, data: PageData,
                      splitPage: Page<PageData>, splitId: PageId, splitData: PageData, ghost pins: multiset<PageId>)
      requires pool.Valid()
      requires pool.Holds(dirPage, dirId) && pool.Holds(page, id) && pool.Holds(splitPage, splitId)
      requires pool.pins == pins + multiset{dirId} + multiset{id} + multiset{splitId}
      requires dirId !in pool.debt && id !in pool.debt && splitId !in pool.debt
      modifies pool, pool.replacer, pool.pages
      ensures pool.Valid()
      ensures pool.view == old(pool.view)[dirId := dirData][id := data][splitId := splitData]
      ensures pool.pins == pins && pool.debt == old(pool.debt)
    {
      hide BufferPoolManagerInstance.Valid;
      FirstPinLeft(pins, dirId, id, splitId);
      PutBack(dirPage, dirId, dirData);
      PutBack(page, id, data);
      PutBack(splitPage, splitId, splitData);
    }

    /**
     Adds the pair, splitting as often as its bucket is full. It succeeds exactly when the pair is absent and fewer
     than `capacity` stored pairs agree with its key on the low 9 hash bits; a failure changes no stored pair, though
     it may have split. Each split deepens the bucket of the key by one bit, of which there are 9. With three frames
     it never trips over the assertion that a new page is to be had; with two, and nobody else holding a page of the
     table, it does exactly when a split is due.
     */
    method Insert(key: Key, value: Value) returns (res: bool, trapped: bool, ghost splits: nat)
      requires Valid() && Room(Pages(key))
      modifies pool, pool.replacer, pool.pages
      ensures trapped ==> old(SplitDue(key))
      ensures old(Frames(3)) ==> !trapped
      ensures old(SplitDue(key)) && |PinnedIds(old(pool.pins)) + old(Pages(key))| == pool.poolSize ==> trapped
      ensures old(Unheld()) ==> (trapped <==> old(SplitDue(key)) && !old(Frames(3)))
      ensures !trapped ==> Valid() && Tidy()
      ensures !trapped ==> (res <==> Insertable(old(Pairs(Value())), hashFn, capacity, Pair(key, value)))
      ensures !trapped ==>
                Pairs(Value()) == if res then old(Pairs(Value())) + {Pair(key, value)} else old(Pairs(Value()))
      ensures !trapped ==>
                HomeDepth(Value(), hashFn, key) == old(HomeDepth(Value(), hashFn, key)) + splits <= MAX_DEPTH
      ensures !trapped ==>
                forall l :: old(HomeDepth(Value(), hashFn, key)) <= l < HomeDepth(Value(), hashFn, key) ==>
                              |Agreeing(old(Pairs(Value())), hashFn, key, l)| >= capacity
      ensures !trapped && HomeDepth(Value(), hashFn, key) < MAX_DEPTH ==>
                |Agreeing(old(Pairs(Value())), hashFn, key, HomeDepth(Value(), hashFn, key))| < capacity
      decreases MAX_DEPTH - HomeDepth(Value(), hashFn, key), 1
    {
      hide BufferPoolManagerInstance.Valid, Represents, TableOf, TablePages, TableModel.Pairs, PinnedIds, Untouched,
        Consistent, Trie, Low, Shape, Insertable, Agreeing;
      ghost var t, start := Value(), pool.view;
      HomeBucket(pool.view, directoryPageId, capacity, hashFn, key);
      UnheldRoom(key);
      var done;
      done, res := InsertLatched(key, value);
      splits, trapped := 0, false;
      InsertSectionCorrect(t, hashFn, capacity, Pair(key, value), Value(), done, res);
      RoomForOne(pool.pins, directoryPageId, Home(t, hashFn, key), pool.poolSize);
      if !done {
        ghost var between := pool.view;
        res, trapped, splits := SplitInsert(key, value);
        if !trapped {
          UntouchedTransitive(start, between, pool.view, directoryPageId);
        }
      }
    }

    method SplitInsert(key: Key, value: Value) returns (res: bool, trapped: bool, ghost splits: nat)
      requires Valid() && Room(Pages(key))
      modifies pool, pool.replacer, pool.pages
      ensures trapped ==> old(SplitDue(key))
      ensures old(Frames(3)) ==> !trapped
      ensures old(SplitDue(key)) && |PinnedIds(old(pool.pins)) + old(Pages(key))| == pool.poolSize ==> trapped
      ensures !trapped ==> Valid() && Tidy()
      ensures !trapped ==> (res <==> Insertable(old(Pairs(Value())), hashFn, capacity, Pair(key, value)))
      ensures !trapped ==>
                Pairs(Value()) == if res then old(Pairs(Value())) + {Pair(key, value)} else old(Pairs(Value()))
      ensures !trapped ==>
                HomeDepth(Value(), hashFn, key) == old(HomeDepth(Value(), hashFn, key)) + splits <= MAX_DEPTH
      ensures !trapped ==>
                forall l :: old(HomeDepth(Value(), hashFn, key)) <= l < HomeDepth(Value(), hashFn, key) ==>
                              |Agreeing(old(Pairs(Value())), hashFn, key, l)| >= capacity
      ensures !trapped && HomeDepth(Value(), hashFn, key) < MAX_DEPTH ==>
                |Agreeing(old(Pairs(Value())), hashFn, key, HomeDepth(Value(), hashFn, key))| < capacity
      decreases MAX_DEPTH - HomeDepth(Value(), hashFn, key), 0
    {
      hide BufferPoolManagerInstance.Valid, Represents, TableOf, TablePages, TableModel.Pairs, PinnedIds, Untouched,
        Consistent, Trie, Low, Shape, Insertable, Agreeing, SplitStep, Pow2;
      ghost var t, start := Value(), pool.view;
      HomeBucket(pool.view, directoryPageId, capacity, hashFn, key);
      RoomForOne(pool.pins, directoryPageId, Home(t, hashFn, key), pool.poolSize);
      var done;
      ghost var newId;
      done, res, trapped, newId := SplitInsertLatched(key, value);
      splits := 0;
      if trapped {
        return;
      }
      SplitSectionCorrect(t, hashFn, capacity, Pair(key, value), newId, Value(), done, res);
      HomeBucket(pool.view, directoryPageId, capacity, hashFn, key);
      if !done {
        ghost var between := pool.view;
        RoomForOne(pool.pins, directoryPageId, Home(Value(), hashFn, key), pool.poolSize);
        res, trapped, splits := Insert(key, value);
        splits := splits + 1;
        if !trapped {
          UntouchedTransitive(start, between, pool.view, directoryPageId);
        }
      }
    }

    // ---------- removal ----------

    /** The rest of the first section of a removal. */
    method RemoveInside(key: Key, value: Value, page: Page<PageData>, id: PageId, ghost pins: multiset<PageId>)
      returns (res: bool)
      requires Valid() && AtHome(key, id) && pool.Holds(page, id)
      requires pool.pins == pins + multiset{directoryPageId} + multiset{id}
      modifies pool, pool.replacer, pool.pages
      ensures Valid() && Untouched(old(pool.view), pool.view, directoryPageId)
      ensures TablePages(pool.view, directoryPageId) == old(TablePages(pool.view, directoryPageId))
      ensures pool.pins == pins && pool.debt == old(pool.debt) && pool.PinnedStay()
      ensures Shape(old(Value()).dir) && Home(old(Value()), hashFn, key) in old(Value()).buckets
      ensures RemoveSection(old(Value()), hashFn, Pair(key, value), Value(), res)
    {
      hide BufferPoolManagerInstance.Valid, Represents, TableOf, TablePages, PinnedIds, BucketPairs, Untouched,
        Consistent, Trie, WellFormed, Live, TableModel.Pairs, DirectoryOf, BufferPoolManagerInstance.Holds;
      HomeBucket(pool.view, directoryPageId, capacity, hashFn, key);
      var bucket := OpenBucket(key, page, id);
      res := RemoveHere(key, value, page, id, bucket, pins);
    }

    /** `Remove` up to the release of its latches. */
    method RemoveLatched(key: Key, value: Value) returns (res: bool)
      requires Valid() && Room(Pages(key))
      modifies pool, pool.replacer, pool.pages
      ensures Valid() && Tidy()
      ensures Shape(old(Value()).dir) && Home(old(Value()), hashFn, key) in old(Value()).buckets
      ensures RemoveSection(old(Value()), hashFn, Pair(key, value), Value(), res)
    {
      hide BufferPoolManagerInstance.Valid, Represents, TableOf, TablePages, PinnedIds, BucketPairs, Untouched,
        Consistent, Trie, TableModel.Pairs, BufferPoolManagerInstance.Holds, RemoveSection;
      HomeBucket(pool.view, directoryPageId, capacity, hashFn, key);
      var trapped, page, id := Enter(key);
      assert !trapped;
      res := RemoveInside(key, value, page, id, old(pool.pins));
    }

    /** The removal from the home bucket: its page is unpinned dirty, and the directory page clean. */
    method RemoveHere(key: Key, value: Value, page: Page<PageData>, id: PageId, bucket: BucketPage,
                      ghost pins: multiset<PageId>) returns (res: bool)
      requires Valid() && AtHome(key, id) && pool.Holds(page, id)
      requires pool.pins == pins + multiset{directoryPageId} + multiset{id}
      requires directoryPageId !in pool.debt && id !in pool.debt
      requires bucket.Valid() && bucket.capacity == capacity && bucket.Pairs() == BucketPairs(pool.view[id], capacity)
      requires Distant(bucket)
      modifies pool, pool.replacer, pool.pages, bucket.readable
      ensures Valid() && Untouched(old(pool.view), pool.view, directoryPageId)
      ensures TablePages(pool.view, directoryPageId) == old(TablePages(pool.view, directoryPageId))
      ensures pool.pins == pins && pool.debt == old(pool.debt) && pool.PinnedStay()
      ensures res <==> Pair(key, value) in old(Value()).buckets[id]
      ensures Value() == DropPair(old(Value()), hashFn, Pair(key, value))
    {
      hide BufferPoolManagerInstance.Valid, Represents, TableOf, TablePages, TableModel.Pairs, BucketPairs, Untouched,
        WellFormed, Live, PinnedIds;
      res := bucket.Remove(key, value);
      ghost var image := bucket.Image();
      var data := StoreBucket(bucket);
      LastPinLeft(pins, directoryPageId, id);
      PutBack(page, id, data);
      var ok := pool.UnpinPgImp(directoryPageId, false);
      assert ok;
      RemoveView(old(pool.view), directoryPageId, capacity, hashFn, Pair(key, value), image);
    }

    /**
     Gives the slots of an empty bucket to its split image, if that has the same depth, deletes its page, and shrinks
     the directory as far as possible. The deletion finds the page unpinned.
     */
    method Merge(key: Key)
      requires Valid() && Room(Pages(key)) && Deletable(Value(), key)
      modifies pool, pool.replacer, pool.pages
      ensures Valid() && Tidy()
      ensures Trie(old(Value()).dir) && old(Value()).buckets.Keys == LiveIds(old(Value()).dir)
      ensures MergeSection(old(Value()), hashFn, key, Value())
      ensures Home(old(Value()), hashFn, key) in old(Value()).buckets
      ensures var t, x := old(Value()), hashFn(key);
              var p, l := Home(t, hashFn, key), HomeDepth(t, hashFn, key);
              if && 1 <= l && t.buckets[p] == {}
                 && forall y: nat :: Low(y, l - 1) == Low(x, l - 1) && Low(y, l) != Low(x, l) ==> Depth(t.dir, y) == l
              then
                && HomeDepth(Value(), hashFn, key) == l - 1
                && Value().buckets == t.buckets - {p} && p !in pool.pageTable
              else
                Value() == t
    {
      hide BufferPoolManagerInstance.Valid, Represents, TableOf, TablePages, PinnedIds, BucketPairs, Untouched,
        Consistent, Trie, WellFormed, Live, Low, BufferPoolManagerInstance.Holds, Mergeable, MergeSection,
        ExtendibleHashTable.Pages, LiveIds, BucketPage.Image, DirectoryPage.Dir, Depth, Shape, Pow2;
      HomeBucket(pool.view, directoryPageId, capacity, hashFn, key);
      var dirPage, dir, id, page, bucket := FetchHome(key);
      MergeFetched(key, dirPage, dir, id, bucket, old(pool.pins));
      MergeSectionMeans(old(Value()), hashFn, capacity, key, Value());
      MergeableMeans(old(Value()), hashFn, capacity, key);
    }

    /** The checks of a merge, and the merge itself. */
    method MergeFetched(key: Key, dirPage: Page<PageData>, dir: DirectoryPage, id: PageId, bucket: BucketPage,
                        ghost pins: multiset<PageId>)
      requires Valid() && AtHome(key, id) && pool.Holds(dirPage, directoryPageId)
      requires pool.pins == pins + multiset{directoryPageId} + multiset{id}
      requires directoryPageId !in pool.debt && id !in pool.debt
      requires Trie(Value().dir) && Value().buckets.Keys == LiveIds(Value().dir)
      requires Mergeable(Value(), hashFn, key) ==> id !in pins
      requires dir.Valid() && dir.pageId == directoryPageId && dir.Dir() == Value().dir && DistantDirectory(dir)
      requires bucket.Valid() && bucket.Pairs() == Value().buckets[id]
      modifies pool, pool.replacer, pool.pages, dir`globalDepth, dir.localDepths, dir.bucketPageIds
      ensures Valid() && Untouched(old(pool.view), pool.view, directoryPageId)
      ensures pool.pins == pins && pool.debt == old(pool.debt)
      ensures TablePages(pool.view, directoryPageId) <= old(TablePages(pool.view, directoryPageId))
      ensures MergeSection(old(Value()), hashFn, key, Value())
      ensures Mergeable(old(Value()), hashFn, key) ==> id !in pool.pageTable
    {
      hide BufferPoolManagerInstance.Valid, Represents, TableOf, TablePages, PinnedIds, BucketPairs, Untouched,
        Consistent, Trie, WellFormed, Live, Low, Pow2, SplitImage, IsMerge, MergeStep, Sized,
        BufferPoolManagerInstance.Holds, LiveIds, BucketPage.Image;
      HomeBucket(pool.view, directoryPageId, capacity, hashFn, key);
      MergeChecks(Value(), hashFn, capacity, key);
      UntouchedSelf(pool.view, directoryPageId);
      var slot := KeyToDirectoryIndex(dir, hashFn(key));
      var empty := bucket.IsEmpty();
      if dir.localDepths[slot] == 0 || !empty {
        UnpinBoth(id, dir.pageId, pins);
        return;
      }
      var image := dir.GetSplitImageIndex(slot);
      var splitId := dir.bucketPageIds[image];
      assert splitId != id;
      if dir.localDepths[slot] != dir.localDepths[image] {
        UnpinBoth(id, dir.pageId, pins);
        return;
      }
      FinishMerge(key, slot, image, dirPage, dir, id, pins);
    }

    /** The empty page is unpinned and deleted; the deletion finds no other pin. */
    method DropPage(id: PageId, ghost rest: multiset<PageId>)
      requires pool.Valid() && pool.pins == rest + multiset{id} && id !in rest && id !in pool.debt
      modifies pool, pool.replacer, pool.pages
      ensures pool.Valid() && pool.PinnedStay()
      ensures pool.view == old(pool.view) && pool.pins == rest && pool.debt == old(pool.debt)
      ensures id !in pool.pageTable
    {
      hide BufferPoolManagerInstance.Valid;
      var ok := pool.UnpinPgImp(id, false);
      assert ok;
      assert pool.pins == rest;
      ok := pool.DeletePgImp(id);
      assert ok;
    }

    /** The rest of a merge, once the checks have passed. */
    method FinishMerge(key: Key, slot: nat, image: nat, dirPage: Page<PageData>, dir: DirectoryPage, id: PageId,
                       ghost pins: multiset<PageId>)
      requires Valid() && pool.Holds(dirPage, directoryPageId)
      requires pool.pins == pins + multiset{directoryPageId} + multiset{id}
      requires id !in pins && id != directoryPageId && Shape(Value().dir) && id == Home(Value(), hashFn, key)
      requires directoryPageId !in pool.debt && id !in pool.debt
      requires dir.Valid() && dir.pageId == directoryPageId && dir.Dir() == Value().dir && DistantDirectory(dir)
      requires Trie(Value().dir) && Value().buckets.Keys == LiveIds(Value().dir) && Mergeable(Value(), hashFn, key)
      requires var d := Value().dir;
               var l := HomeDepth(Value(), hashFn, key);
               && slot == Low(hashFn(key), d.globalDepth) < Size(d) && d.localDepths[slot] == l >= 1
               && image == SplitImage(slot, l) < Size(d) && d.bucketPageIds[image] == Route(d, image)
               && d.localDepths[image] == l
               && Low(image, l - 1) == Low(slot, l - 1) && Low(image, l) != Low(slot, l)
      modifies pool, pool.replacer, pool.pages, dir`globalDepth, dir.localDepths, dir.bucketPageIds
      ensures Valid() && Untouched(old(pool.view), pool.view, directoryPageId)
      ensures pool.pins == pins && pool.debt == old(pool.debt)
      ensures TablePages(pool.view, directoryPageId) <= old(TablePages(pool.view, directoryPageId))
      ensures MergeSection(old(Value()), hashFn, key, Value()) && id !in pool.pageTable
    {
      hide BufferPoolManagerInstance.Valid, Represents, TableOf, TablePages, PinnedIds, Untouched, Consistent, Trie,
        Low, Pow2, SplitImage, IsMerge, MergeStep, Mergeable;
      DropPage(id, pins + multiset{directoryPageId});
      var splitId := dir.bucketPageIds[image];
      MergeDirectory(dir, slot, image, splitId);
      ghost var merged := dir.Dir();
      dir.Shrink();
      var data := StoreDirectory(dir);
      PutBack(dirPage, directoryPageId, data);
      assert pool.pins == pins;
      MergeWhole(old(pool.view), directoryPageId, capacity, hashFn, key, merged);
    }

    /**
     Removes exactly the pair, and reports whether it was there. Then the bucket is merged away if it is empty, is not
     the only one, and the other half of its class is one bucket; otherwise only the pair is gone.
     */
    method Remove(key: Key, value: Value) returns (res: bool)
      requires Valid() && Room(Pages(key)) && Deletable(WithoutPair(Pair(key, value)), key)
      modifies pool, pool.replacer, pool.pages
      ensures Valid() && Tidy()
      ensures res <==> Pair(key, value) in old(Pairs(Value()))
      ensures Pairs(Value()) == old(Pairs(Value())) - {Pair(key, value)}
      ensures var t := old(WithoutPair(Pair(key, value)));
              Trie(t.dir) && t.buckets.Keys == LiveIds(t.dir) && MergeSection(t, hashFn, key, Value())
      ensures Home(old(Value()), hashFn, key) in old(Value()).buckets
      ensures var t, x := old(Value()), hashFn(key);
              var p, l := Home(t, hashFn, key), HomeDepth(t, hashFn, key);
              var rest := t.buckets[p] - {Pair(key, value)};
              if && 1 <= l && rest == {}
                 && forall y: nat :: Low(y, l - 1) == Low(x, l - 1) && Low(y, l) != Low(x, l) ==> Depth(t.dir, y) == l
              then
                && HomeDepth(Value(), hashFn, key) == l - 1
                && Value().buckets == t.buckets - {p} && p !in pool.pageTable
              else
                Value() == Table(t.dir, t.buckets[p := rest])
    {
      hide BufferPoolManagerInstance.Valid, Represents, TableOf, TablePages, TableModel.Pairs, PinnedIds, Untouched,
        Consistent, Trie, Low, Shape, MergeSection, LiveIds;
      ghost var t, start := Value(), pool.view;
      HomeBucket(pool.view, directoryPageId, capacity, hashFn, key);
      res := RemoveLatched(key, value);
      RemoveSectionCorrect(t, hashFn, capacity, Pair(key, value), Value(), res);
      ghost var between, t' := pool.view, Value();
      Merge(key);
      MergeSectionCorrect(t', hashFn, capacity, key, Value());
      UntouchedTransitive(start, between, pool.view, directoryPageId);
      assert t'.buckets - {Home(t, hashFn, key)} == t.buckets - {Home(t, hashFn, key)};
    }

    method GetGlobalDepth() returns (depth: nat)
      requires Valid() && Room({directoryPageId})
      modifies pool, pool.replacer, pool.pages
      ensures Valid() && Tidy() && pool.view == old(pool.view)
      ensures depth == Value().dir.globalDepth
      ensures (exists x: nat :: Depth(Value().dir, x) == depth) && forall x: nat :: Depth(Value().dir, x) <= depth
    {
      hide BufferPoolManagerInstance.Valid, TablePages, PinnedIds;
      UntouchedSelf(pool.view, directoryPageId);
      OwnPage(pool.view, directoryPageId);
      var page, dir := FetchDirectoryPage();
      depth := dir.globalDepth;
      var ok := pool.UnpinPgImp(directoryPageId, false);
      assert ok;
    }

    /** The integrity check of the directory never trips. */
    method VerifyIntegrity() returns (ok: bool)
      requires Valid() && Room({directoryPageId})
      modifies pool, pool.replacer, pool.pages
      ensures Valid() && Tidy() && pool.view == old(pool.view)
      ensures ok
    {
      hide BufferPoolManagerInstance.Valid, TablePages, PinnedIds, Represents, Integrity, Consistent;
      UntouchedSelf(pool.view, directoryPageId);
      OwnPage(pool.view, directoryPageId);
      TableHasIntegrity(pool.view, directoryPageId, capacity, hashFn);
      var page, dir := FetchDirectoryPage();
      ok := dir.VerifyIntegrity();
      var unpinned := pool.UnpinPgImp(directoryPageId, false);
      assert unpinned;
    }
  }
}
