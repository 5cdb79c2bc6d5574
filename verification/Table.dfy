/**
 The hash table as a value: a directory and, for each live page id, the set of pairs stored in that bucket. The
 critical sections of the table are steps on such values; each keeps `Consistent` and acts on `Pairs`, the stored set.
 */
module TableModel {
  import opened Types
  import opened Bits
  import opened DirectoryModel

  datatype Table = Table(dir: Directory, buckets: map<PageId, set<Pair>>)

  /**
   The invariant of every reachable table: the directory is a minimal trie over exactly the existing buckets, no bucket
   exceeds its capacity, and every stored pair sits in the bucket its hash is routed to.
   */
  ghost predicate Consistent(t: Table, h: HashFunction, capacity: nat) {
    && Trie(t.dir) && Minimal(t.dir)
    && t.buckets.Keys == LiveIds(t.dir)
    && (forall p :: p in t.buckets ==> |t.buckets[p]| <= capacity)
    && (forall p, kv :: p in t.buckets && kv in t.buckets[p] ==> Route(t.dir, h(kv.key)) == p)
  }

  /** The stored set. */
  ghost function Pairs(t: Table): set<Pair> {
    set p, kv | p in t.buckets && kv in t.buckets[p] :: kv
  }

  /** The bucket that `key` is routed to. */
  ghost function Home(t: Table, h: HashFunction, key: Key): PageId
    requires Shape(t.dir)
  {
    Route(t.dir, h(key))
  }

  ghost function HomeDepth(t: Table, h: HashFunction, key: Key): nat
    requires Shape(t.dir)
  {
    Depth(t.dir, h(key))
  }

  /** The stored pairs whose keys agree with `key` on the low 9 hash bits: no directory can tell them apart. */
  ghost function Rivals(pairs: set<Pair>, h: HashFunction, key: Key): set<Pair> {
    set kv | kv in pairs && Low(h(kv.key), MAX_DEPTH) == Low(h(key), MAX_DEPTH)
  }

  /** The stored pairs whose keys agree with `key` on the low `l` hash bits. */
  ghost function Agreeing(pairs: set<Pair>, h: HashFunction, key: Key, l: nat): (r: set<Pair>)
    ensures forall kv :: kv in r <==> kv in pairs && Low(h(kv.key), l) == Low(h(key), l)
  {
    set kv | kv in pairs && Low(h(kv.key), l) == Low(h(key), l)
  }

  // ---------- steps ----------

  ghost function AddPair(t: Table, h: HashFunction, kv: Pair): Table
    requires Shape(t.dir) && Home(t, h, kv.key) in t.buckets
  {
    var p := Home(t, h, kv.key);
    t.(buckets := t.buckets[p := t.buckets[p] + {kv}])
  }

  ghost function DropPair(t: Table, h: HashFunction, kv: Pair): Table
    requires Shape(t.dir) && Home(t, h, kv.key) in t.buckets
  {
    var p := Home(t, h, kv.key);
    t.(buckets := t.buckets[p := t.buckets[p] - {kv}])
  }

  /** The directory a split works on: doubled when the bucket already uses all its bits. */
  ghost function Widened(d: Directory, hash: nat): Directory
    requires Shape(d) && (Depth(d, hash) < d.globalDepth || 2 * Size(d) <= DIRECTORY_ARRAY_SIZE)
  {
    if Depth(d, hash) < d.globalDepth then d else Doubled(d)
  }

  /** One split of the bucket of `key`, whose split image is the new page `newId`. */
  ghost predicate SplitStep(t: Table, h: HashFunction, key: Key, newId: PageId, t': Table)
    requires Trie(t.dir) && t.buckets.Keys == LiveIds(t.dir) && HomeDepth(t, h, key) < MAX_DEPTH
  {
    var p := Home(t, h, key);
    WidenedKeepsTrie(t.dir, h(key));
    RouteIsLive(t.dir, h(key));
    var d := Widened(t.dir, h(key));
    && newId !in t.buckets
    // The slot is computed before the directory is doubled, and names the lower copy afterwards.
    && Low(h(key), t.dir.globalDepth) < Size(d)
    && IsSplit(d, Low(h(key), t.dir.globalDepth), newId, t'.dir)
    && t'.buckets == t.buckets[p := set kv | kv in t.buckets[p] && Route(t'.dir, h(kv.key)) == p]
                              [newId := set kv | kv in t.buckets[p] && Route(t'.dir, h(kv.key)) != p]
  }

  /** The bucket of `key` is empty and can be merged with its split image. */
  ghost predicate Mergeable(t: Table, h: HashFunction, key: Key)
    requires Trie(t.dir) && t.buckets.Keys == LiveIds(t.dir)
  {
    RouteIsLive(t.dir, h(key));
    && 1 <= HomeDepth(t, h, key)
    && t.buckets[Home(t, h, key)] == {}
    && Depth(t.dir, SplitImage(Low(h(key), t.dir.globalDepth), HomeDepth(t, h, key))) == HomeDepth(t, h, key)
  }

  /** One merge of the empty bucket of `key`, followed by the shrink loop. */
  ghost predicate MergeStep(t: Table, h: HashFunction, key: Key, merged: Directory, t': Table)
    requires Trie(t.dir) && t.buckets.Keys == LiveIds(t.dir) && Mergeable(t, h, key)
  {
    var slot := Low(h(key), t.dir.globalDepth);
    && IsMerge(t.dir, slot, Route(t.dir, SplitImage(slot, HomeDepth(t, h, key))), merged)
    && t'.dir == Shrunk(merged)
    && t'.buckets == t.buckets - {Home(t, h, key)}
  }

  // ---------- the critical sections ----------

  /**
   `Insert` under the table's read latch and the bucket's write latch: a bucket with room takes the pair unless it has
   it, and the call is done; a full one is left to `SplitInsert`.
   */
  ghost predicate InsertSection(t: Table, h: HashFunction, capacity: nat, kv: Pair, t': Table, done: bool, res: bool)
    requires Shape(t.dir) && Home(t, h, kv.key) in t.buckets
  {
    var bucket := t.buckets[Home(t, h, kv.key)];
    if |bucket| < capacity then
      done && (res <==> kv !in bucket) && t' == AddPair(t, h, kv)
    else
      !done && t' == t
  }

  /**
   `SplitInsert` under the table's write latch: a bucket that has room by now takes the pair; a full one of maximal
   depth makes the call fail; any other is split, its new half going to page `newId`, and the insertion starts again.
   */
  ghost predicate SplitSection(t: Table, h: HashFunction, capacity: nat, kv: Pair, newId: PageId, t': Table, done: bool,
                               res: bool)
    requires Trie(t.dir) && t.buckets.Keys == LiveIds(t.dir) && Home(t, h, kv.key) in t.buckets
  {
    if |t.buckets[Home(t, h, kv.key)]| < capacity then
      InsertSection(t, h, capacity, kv, t', done, res)
    else if HomeDepth(t, h, kv.key) >= MAX_DEPTH then
      done && !res && t' == t
    else
      !done && SplitStep(t, h, kv.key, newId, t')
  }

  /** `Remove` under the table's read latch and the bucket's write latch. */
  ghost predicate RemoveSection(t: Table, h: HashFunction, kv: Pair, t': Table, res: bool)
    requires Shape(t.dir) && Home(t, h, kv.key) in t.buckets
  {
    (res <==> kv in t.buckets[Home(t, h, kv.key)]) && t' == DropPair(t, h, kv)
  }

  /** `Merge` under the table's write latch. */
  ghost predicate MergeSection(t: Table, h: HashFunction, key: Key, t': Table)
    requires Trie(t.dir) && t.buckets.Keys == LiveIds(t.dir)
  {
    if Mergeable(t, h, key) then exists merged :: MergeStep(t, h, key, merged, t') else t' == t
  }

  // ---------- lookup ----------

  lemma LiveIffRouted(d: Directory, p: PageId)
    requires Shape(d)
    ensures p in LiveIds(d) <==> exists x: nat :: Route(d, x) == p
  {
    if p in LiveIds(d) {
      var i :| 0 <= i < Size(d) && d.bucketPageIds[i] == p;
      SlotIsItsOwnHash(d, i);
      assert Route(d, i) == p;
    }
  }

  /** A pair is stored iff it is in the one bucket its key is routed to. */
  lemma StoredAtHome(t: Table, h: HashFunction, capacity: nat, kv: Pair)
    requires Consistent(t, h, capacity)
    ensures Home(t, h, kv.key) in t.buckets
    ensures kv in Pairs(t) <==> kv in t.buckets[Home(t, h, kv.key)]
  {
    RouteIsLive(t.dir, h(kv.key));
  }

  // ---------- adding and removing one pair ----------

  lemma AddKeepsConsistent(t: Table, h: HashFunction, capacity: nat, kv: Pair)
    requires Consistent(t, h, capacity)
    requires Home(t, h, kv.key) in t.buckets && |t.buckets[Home(t, h, kv.key)]| < capacity
    ensures Consistent(AddPair(t, h, kv), h, capacity)
    ensures Pairs(AddPair(t, h, kv)) == Pairs(t) + {kv}
  {
    hide Low;
    var p, t' := Home(t, h, kv.key), AddPair(t, h, kv);
    assert kv in t'.buckets[p];
    forall x | x in Pairs(t)
      ensures x in Pairs(t')
    {
      var q :| q in t.buckets && x in t.buckets[q];
      assert x in t'.buckets[q];
    }
  }

  lemma DropKeepsConsistent(t: Table, h: HashFunction, capacity: nat, kv: Pair)
    requires Consistent(t, h, capacity) && Home(t, h, kv.key) in t.buckets
    ensures Consistent(DropPair(t, h, kv), h, capacity)
    ensures Pairs(DropPair(t, h, kv)) == Pairs(t) - {kv}
  {
    hide Low;
    var p, t' := Home(t, h, kv.key), DropPair(t, h, kv);
    forall x | x in Pairs(t) && x != kv
      ensures x in Pairs(t')
    {
      var q :| q in t.buckets && x in t.buckets[q];
      assert x in t'.buckets[q];
    }
  }

  // ---------- splitting ----------

  lemma WidenedKeepsTrie(d: Directory, hash: nat)
    requires Trie(d) && Depth(d, hash) < MAX_DEPTH
    ensures Depth(d, hash) < d.globalDepth || 2 * Size(d) <= DIRECTORY_ARRAY_SIZE
    ensures Trie(Widened(d, hash))
    ensures forall x: nat ::
              Route(Widened(d, hash), x) == Route(d, x) && Depth(Widened(d, hash), x) == Depth(d, x)
    ensures Depth(d, hash) < Widened(d, hash).globalDepth
    ensures LiveIds(Widened(d, hash)) == LiveIds(d)
    ensures Minimal(d) ==> Minimal(Widened(d, hash)) || Depth(d, hash) == Widened(d, hash).globalDepth - 1
  {
    hide Low;
    if Depth(d, hash) >= d.globalDepth {
      assert Depth(d, hash) <= d.globalDepth;
      DoubledKeepsTrie(d);
    }
    SameRoutesSameIds(d, Widened(d, hash));
  }

  lemma SameRoutesSameIds(d: Directory, d': Directory)
    requires Shape(d) && Shape(d') && forall x: nat :: Route(d', x) == Route(d, x)
    ensures LiveIds(d') == LiveIds(d)
  {
    hide Low;
    forall p
      ensures p in LiveIds(d) <==> p in LiveIds(d')
    {
      LiveIffRouted(d, p);
      LiveIffRouted(d', p);
      if x: nat :| Route(d, x) == p {
        assert Route(d', x) == p;
      }
    }
  }

  lemma SplitLiveIds(d: Directory, key: nat, newId: PageId, d': Directory)
    requires Trie(d) && Depth(d, key) < d.globalDepth && newId !in LiveIds(d)
    requires IsSplit(d, Low(key, d.globalDepth), newId, d')
    ensures LiveIds(d') == LiveIds(d) + {newId}
    ensures Route(d', key) == Route(d, key)
    ensures forall x: nat :: Route(d', x) == Route(d, x) || (Route(d', x) == newId && Route(d, x) == Route(d, key))
  {
    hide Low;
    var l := Depth(d, key);
    SplitRoutes(d, key, newId, d', key);
    var image := SplitImage(Low(key, d.globalDepth), l + 1);
    SplitImageClass(Low(key, d.globalDepth), image, l);
    LowLow(key, l, d.globalDepth);
    LowLow(key, l + 1, d.globalDepth);
    SplitRoutes(d, key, newId, d', image);
    assert Route(d', image) == newId;
    forall x: nat
      ensures Route(d', x) == Route(d, x) || (Route(d', x) == newId && Route(d, x) == Route(d, key))
    {
      SplitRoutes(d, key, newId, d', x);
      assert Route(d, key) == Route(d, x) <==> Low(x, l) == Low(key, l);
    }
    forall p
      ensures p in LiveIds(d') <==> p in LiveIds(d) || p == newId
    {
      LiveIffRouted(d, p);
      LiveIffRouted(d', p);
      if x: nat :| Route(d, x) == p {
        assert Route(d', x) == p || Route(d', key) == p;
      }
      if x: nat :| Route(d', x) == p {
        assert Route(d, x) == p || p == newId;
      }
    }
  }

  /** Sharing one bucket out over two pages loses nothing and adds nothing. */
  lemma RedistributionKeepsPairs(t: Table, p: PageId, newId: PageId, t': Table)
    requires p in t.buckets && newId !in t.buckets && t'.buckets.Keys == t.buckets.Keys + {newId}
    requires t.buckets[p] == t'.buckets[p] + t'.buckets[newId]
    requires forall q :: q in t.buckets && q != p ==> t'.buckets[q] == t.buckets[q]
    ensures Pairs(t') == Pairs(t)
  {
    forall kv
      ensures kv in Pairs(t') <==> kv in Pairs(t)
    {
      if q :| q in t.buckets && kv in t.buckets[q] {
        assert kv in t'.buckets[q] || kv in t'.buckets[newId];
      }
      if q :| q in t'.buckets && kv in t'.buckets[q] {
        assert kv in t.buckets[if q == newId then p else q];
      }
    }
  }

  /** The slot computed before doubling is routed like the hash it came from. */
  lemma SlotStandsFor(d: Directory, hash: nat)
    requires Trie(d) && Depth(d, hash) < MAX_DEPTH
    requires Depth(d, hash) < d.globalDepth || 2 * Size(d) <= DIRECTORY_ARRAY_SIZE
    ensures var w, slot := Widened(d, hash), Low(hash, d.globalDepth);
            && Shape(w) && slot < Size(w) && Low(slot, w.globalDepth) == slot
            && Depth(w, slot) == Depth(d, hash) && Route(w, slot) == Route(d, hash)
            && Low(slot, Depth(d, hash)) == Low(hash, Depth(d, hash))
  {
    hide Low;
    WidenedKeepsTrie(d, hash);
    var w, slot := Widened(d, hash), Low(hash, d.globalDepth);
    Pow2Monotone(d.globalDepth, w.globalDepth);
    LowSmall(slot, w.globalDepth);
    LowLow(hash, d.globalDepth, d.globalDepth);
    assert Depth(d, hash) <= d.globalDepth;
    LowLow(hash, Depth(d, hash), d.globalDepth);
    assert Route(w, slot) == Route(d, slot) && Depth(w, slot) == Depth(d, slot);
  }

  lemma SplitDirectoryKeeps(d: Directory, hash: nat, newId: PageId, d': Directory)
    requires Trie(d) && Minimal(d) && Depth(d, hash) < MAX_DEPTH && newId !in LiveIds(d)
    requires Depth(d, hash) < d.globalDepth || 2 * Size(d) <= DIRECTORY_ARRAY_SIZE
    requires Low(hash, d.globalDepth) < Size(Widened(d, hash)) && Shape(Widened(d, hash))
    requires IsSplit(Widened(d, hash), Low(hash, d.globalDepth), newId, d')
    ensures Trie(d') && Minimal(d')
    ensures LiveIds(d') == LiveIds(d) + {newId}
    ensures Depth(d', hash) == Depth(d, hash) + 1
    ensures forall x: nat ::
              Route(d', x) == Route(d, x) || (Route(d', x) == newId && Route(d, x) == Route(d, hash))
  {
    hide Low;
    WidenedKeepsTrie(d, hash);
    SlotStandsFor(d, hash);
    var w, slot := Widened(d, hash), Low(hash, d.globalDepth);
    SplitKeepsTrie(w, slot, newId, d');
    SplitKeepsMinimal(w, slot, newId, d');
    SplitLiveIds(w, slot, newId, d');
    SplitRoutes(w, slot, newId, d', hash);
  }

  /** The routes of a split, and who stays in which bucket. */
  lemma SplitRouting(t: Table, h: HashFunction, capacity: nat, key: Key, newId: PageId, t': Table)
    requires Consistent(t, h, capacity) && HomeDepth(t, h, key) < MAX_DEPTH
    requires SplitStep(t, h, key, newId, t')
    ensures Shape(t.dir) && Shape(t'.dir) && Home(t, h, key) in t.buckets && newId !in t.buckets
    ensures forall x: nat :: Route(t'.dir, x) == Route(t.dir, x) ||
                             (Route(t'.dir, x) == newId && Route(t.dir, x) == Home(t, h, key))
    ensures var p := Home(t, h, key);
            t'.buckets == t.buckets[p := set kv | kv in t.buckets[p] && Route(t'.dir, h(kv.key)) == p]
                                   [newId := set kv | kv in t.buckets[p] && Route(t'.dir, h(kv.key)) != p]
  {
    hide Low;
    RouteIsLive(t.dir, h(key));
    WidenedKeepsTrie(t.dir, h(key));
    SplitDirectoryKeeps(t.dir, h(key), newId, t'.dir);
  }

  lemma SplitHomes(t: Table, h: HashFunction, capacity: nat, key: Key, newId: PageId, t': Table, q: PageId, kv: Pair)
    requires Consistent(t, h, capacity) && HomeDepth(t, h, key) < MAX_DEPTH
    requires SplitStep(t, h, key, newId, t')
    requires q in t'.buckets && kv in t'.buckets[q]
    ensures Shape(t'.dir) && Route(t'.dir, h(kv.key)) == q
  {
    hide Low, SplitStep, Minimal, Trie, Shape;
    SplitRouting(t, h, capacity, key, newId, t');
    assert Route(t'.dir, h(kv.key)) == Route(t.dir, h(kv.key)) || Route(t'.dir, h(kv.key)) == newId;
  }

  lemma SplitBuckets(t: Table, h: HashFunction, capacity: nat, key: Key, newId: PageId, t': Table)
    requires Consistent(t, h, capacity) && HomeDepth(t, h, key) < MAX_DEPTH
    requires SplitStep(t, h, key, newId, t')
    ensures t'.buckets.Keys == t.buckets.Keys + {newId}
    ensures Pairs(t') == Pairs(t)
    ensures forall q :: q in t'.buckets ==> |t'.buckets[q]| <= capacity
    ensures forall q, kv :: q in t'.buckets && kv in t'.buckets[q] ==> Route(t'.dir, h(kv.key)) == q
  {
    hide Low;
    var p := Home(t, h, key);
    RouteIsLive(t.dir, h(key));
    assert t.buckets[p] == t'.buckets[p] + t'.buckets[newId];
    RedistributionKeepsPairs(t, p, newId, t');
    SubsetCardinality(t'.buckets[p], t.buckets[p]);
    SubsetCardinality(t'.buckets[newId], t.buckets[p]);
    forall q, kv | q in t'.buckets && kv in t'.buckets[q]
      ensures Route(t'.dir, h(kv.key)) == q
    {
      SplitHomes(t, h, capacity, key, newId, t', q, kv);
    }
  }

  /** A split changes neither the stored set nor the invariant, and deepens the bucket of the key by exactly one bit. */
  lemma SplitKeepsConsistent(t: Table, h: HashFunction, capacity: nat, key: Key, newId: PageId, t': Table)
    requires Consistent(t, h, capacity) && HomeDepth(t, h, key) < MAX_DEPTH
    requires SplitStep(t, h, key, newId, t')
    ensures Consistent(t', h, capacity)
    ensures Pairs(t') == Pairs(t)
    ensures HomeDepth(t', h, key) == HomeDepth(t, h, key) + 1
  {
    hide Low;
    SplitBuckets(t, h, capacity, key, newId, t');
    WidenedKeepsTrie(t.dir, h(key));
    SplitDirectoryKeeps(t.dir, h(key), newId, t'.dir);
  }

  // ---------- merging ----------

  lemma MergeLiveIds(d: Directory, key: nat, image: nat, d': Directory)
    requires Trie(d) && IsImage(d, key, image) && Depth(d, image) == Depth(d, key)
    requires IsMerge(d, Low(key, d.globalDepth), Route(d, image), d')
    ensures LiveIds(d') == LiveIds(d) - {Route(d, key)}
  {
    hide Low;
    MergeKeepsTrie(d, key, image, d');
    ImageIsElsewhere(d, key, image);
    forall p
      ensures p in LiveIds(d') <==> p in LiveIds(d) && p != Route(d, key)
    {
      LiveIffRouted(d, p);
      LiveIffRouted(d', p);
      if x: nat :| Route(d, x) == p && p != Route(d, key) {
        assert Route(d', x) == p;
      }
      if x: nat :| Route(d', x) == p {
        assert Route(d, x) == p || Route(d, image) == p;
      }
    }
  }

  /** A merge changes neither the stored set nor the invariant. */
  lemma MergeKeepsConsistent(t: Table, h: HashFunction, capacity: nat, key: Key, merged: Directory, t': Table)
    requires Consistent(t, h, capacity) && Mergeable(t, h, key)
    requires MergeStep(t, h, key, merged, t')
    ensures Consistent(t', h, capacity)
    ensures Pairs(t') == Pairs(t)
  {
    hide Low;
    var d, x, p := t.dir, h(key), Home(t, h, key);
    var image := SplitImage(Low(x, d.globalDepth), Depth(d, x));
    assert Depth(d, x) <= d.globalDepth;
    SplitImageIsImage(d, x);
    MergeKeepsTrie(d, x, image, merged);
    MergeLiveIds(d, x, image, merged);
    ShrunkKeepsTrie(merged);
    SameRoutesSameIds(merged, t'.dir);
    MinimalIffNotShrinkable(t'.dir);
    forall kv
      ensures kv in Pairs(t') <==> kv in Pairs(t)
    {
      if q :| q in t.buckets && kv in t.buckets[q] {
        assert q != p;
        assert kv in t'.buckets[q];
      }
    }
  }

  // ---------- exactly when an insertion can succeed ----------

  /** Rivals share every bucket: they are all in the home bucket of the key. */
  lemma RivalsAtHome(t: Table, h: HashFunction, capacity: nat, key: Key)
    requires Consistent(t, h, capacity)
    ensures Home(t, h, key) in t.buckets
    ensures Rivals(Pairs(t), h, key) <= t.buckets[Home(t, h, key)]
    ensures HomeDepth(t, h, key) == MAX_DEPTH ==> Rivals(Pairs(t), h, key) == t.buckets[Home(t, h, key)]
  {
    hide Low;
    var p, l := Home(t, h, key), HomeDepth(t, h, key);
    RouteIsLive(t.dir, h(key));
    assert l <= t.dir.globalDepth;
    forall kv | kv in Rivals(Pairs(t), h, key)
      ensures kv in t.buckets[p]
    {
      LowWeaken(h(kv.key), h(key), l, MAX_DEPTH);
      assert Route(t.dir, h(key)) == Route(t.dir, h(kv.key)) <==> Low(h(key), l) == Low(h(kv.key), l);
    }
    if l == MAX_DEPTH {
      forall kv | kv in t.buckets[p]
        ensures kv in Rivals(Pairs(t), h, key)
      {
        assert Route(t.dir, h(key)) == Route(t.dir, h(kv.key)) <==> Low(h(key), l) == Low(h(kv.key), l);
      }
    }
  }

  /** A bucket of depth `l` holds exactly the stored pairs that agree on the low `l` bits. */
  lemma HomeHoldsAgreeing(t: Table, h: HashFunction, capacity: nat, key: Key)
    requires Consistent(t, h, capacity)
    ensures Home(t, h, key) in t.buckets
    ensures t.buckets[Home(t, h, key)] == Agreeing(Pairs(t), h, key, HomeDepth(t, h, key))
  {
    hide Low, Minimal;
    var p, l := Home(t, h, key), HomeDepth(t, h, key);
    RouteIsLive(t.dir, h(key));
    forall kv
      ensures kv in t.buckets[p] <==> kv in Agreeing(Pairs(t), h, key, l)
    {
      assert Route(t.dir, h(key)) == Route(t.dir, h(kv.key)) <==> Low(h(key), l) == Low(h(kv.key), l);
      if kv in Pairs(t) {
        StoredAtHome(t, h, capacity, kv);
      }
    }
  }

  /** A home bucket with room leaves room among the rivals; a full one that cannot be split is full of rivals. */
  lemma RoomIffFewRivals(t: Table, h: HashFunction, capacity: nat, key: Key)
    requires Consistent(t, h, capacity)
    ensures Home(t, h, key) in t.buckets
    ensures |t.buckets[Home(t, h, key)]| < capacity ==> |Rivals(Pairs(t), h, key)| < capacity
    ensures |t.buckets[Home(t, h, key)]| == capacity && HomeDepth(t, h, key) == MAX_DEPTH
            ==> |Rivals(Pairs(t), h, key)| == capacity
  {
    hide Low;
    RivalsAtHome(t, h, capacity, key);
    SubsetCardinality(Rivals(Pairs(t), h, key), t.buckets[Home(t, h, key)]);
  }

  // ---------- what the critical sections do to the stored set ----------

  /** The insertion that a table of this capacity can promise: the pair is absent, and its rivals leave room. */
  ghost predicate Insertable(pairs: set<Pair>, h: HashFunction, capacity: nat, kv: Pair) {
    kv !in pairs && |Rivals(pairs, h, kv.key)| < capacity
  }

  lemma InsertSectionCorrect(t: Table, h: HashFunction, capacity: nat, kv: Pair, t': Table, done: bool, res: bool)
    requires Consistent(t, h, capacity) && Home(t, h, kv.key) in t.buckets
    requires InsertSection(t, h, capacity, kv, t', done, res)
    ensures Consistent(t', h, capacity) && t'.dir == t.dir
    ensures done <==> |Agreeing(Pairs(t), h, kv.key, HomeDepth(t, h, kv.key))| < capacity
    ensures done ==> (res <==> Insertable(Pairs(t), h, capacity, kv))
    ensures Pairs(t') == if done && res then Pairs(t) + {kv} else Pairs(t)
  {
    hide Low, Rivals, Minimal, Agreeing;
    HomeHoldsAgreeing(t, h, capacity, kv.key);
    if |t.buckets[Home(t, h, kv.key)]| < capacity {
      StoredAtHome(t, h, capacity, kv);
      RoomIffFewRivals(t, h, capacity, kv.key);
      AddKeepsConsistent(t, h, capacity, kv);
    }
  }

  lemma SplitSectionCorrect(t: Table, h: HashFunction, capacity: nat, kv: Pair, newId: PageId, t': Table, done: bool,
                            res: bool)
    requires Consistent(t, h, capacity) && Home(t, h, kv.key) in t.buckets
    requires SplitSection(t, h, capacity, kv, newId, t', done, res)
    ensures Consistent(t', h, capacity)
    ensures done <==> HomeDepth(t, h, kv.key) == MAX_DEPTH ||
                      |Agreeing(Pairs(t), h, kv.key, HomeDepth(t, h, kv.key))| < capacity
    ensures done ==> (res <==> Insertable(Pairs(t), h, capacity, kv))
    ensures Pairs(t') == if done && res then Pairs(t) + {kv} else Pairs(t)
    ensures HomeDepth(t', h, kv.key) == HomeDepth(t, h, kv.key) + (if done then 0 else 1)
  {
    hide Low, Rivals, Minimal, Agreeing;
    HomeHoldsAgreeing(t, h, capacity, kv.key);
    assert HomeDepth(t, h, kv.key) <= t.dir.globalDepth;
    if |t.buckets[Home(t, h, kv.key)]| < capacity {
      InsertSectionCorrect(t, h, capacity, kv, t', done, res);
    } else if HomeDepth(t, h, kv.key) >= MAX_DEPTH {
      RoomIffFewRivals(t, h, capacity, kv.key);
    } else {
      SplitKeepsConsistent(t, h, capacity, kv.key, newId, t');
    }
  }

  lemma RemoveSectionCorrect(t: Table, h: HashFunction, capacity: nat, kv: Pair, t': Table, res: bool)
    requires Consistent(t, h, capacity) && Home(t, h, kv.key) in t.buckets
    requires RemoveSection(t, h, kv, t', res)
    ensures Consistent(t', h, capacity)
    ensures res <==> kv in Pairs(t)
    ensures Pairs(t') == Pairs(t) - {kv}
  {
    hide Low, Minimal;
    StoredAtHome(t, h, capacity, kv);
    DropKeepsConsistent(t, h, capacity, kv);
  }

  lemma MergeSectionCorrect(t: Table, h: HashFunction, capacity: nat, key: Key, t': Table)
    requires Consistent(t, h, capacity) && MergeSection(t, h, key, t')
    ensures Consistent(t', h, capacity)
    ensures Pairs(t') == Pairs(t)
  {
    hide Low;
    if Mergeable(t, h, key) {
      var merged :| MergeStep(t, h, key, merged, t');
      MergeKeepsConsistent(t, h, capacity, key, merged, t');
    }
  }

  // ---------- exactly when and how buckets are merged ----------

  /** `x` is a hash of the other half of the class that the bucket of `key` would make with its split image. */
  lemma ImageHashes(d: Directory, key: nat, image: nat, l: nat, x: nat)
    requires Trie(d) && IsImage(d, key, image) && l == Depth(d, key)
    requires Low(x, l - 1) == Low(key, l - 1) && Low(x, l) != Low(key, l)
    ensures Low(x, l) == Low(image, l)
    ensures Depth(d, image) == l ==> Route(d, x) == Route(d, image) && Depth(d, x) == l
  {
    hide Low;
    ImageCases(key, image, l, x);
    assert Route(d, image) == Route(d, x) <==> Low(image, Depth(d, image)) == Low(x, Depth(d, image));
  }

  /** A bucket is merged when it is empty, not the only one, and all hashes of the other half are in one bucket. */
  lemma MergeableMeans(t: Table, h: HashFunction, capacity: nat, key: Key)
    requires Consistent(t, h, capacity)
    ensures Home(t, h, key) in t.buckets
    ensures var l, x := HomeDepth(t, h, key), h(key);
            Mergeable(t, h, key) <==>
              && 1 <= l && t.buckets[Home(t, h, key)] == {}
              && forall y: nat :: Low(y, l - 1) == Low(x, l - 1) && Low(y, l) != Low(x, l) ==> Depth(t.dir, y) == l
  {
    hide Low;
    var d, x, l := t.dir, h(key), HomeDepth(t, h, key);
    RouteIsLive(d, x);
    assert l <= d.globalDepth;
    if 1 <= l {
      var image := SplitImage(Low(x, d.globalDepth), l);
      SplitImageIsImage(d, x);
      forall y: nat | Low(y, l - 1) == Low(x, l - 1) && Low(y, l) != Low(x, l)
        ensures Depth(d, image) == l ==> Depth(d, y) == l
      {
        ImageHashes(d, x, image, l, y);
      }
    }
  }

  /** The directory of a merge, shrunk. */
  lemma MergedRoutes(d: Directory, key: nat, image: nat, merged: Directory)
    requires Trie(d) && IsImage(d, key, image) && Depth(d, image) == Depth(d, key)
    requires IsMerge(d, Low(key, d.globalDepth), Route(d, image), merged)
    ensures var l, d' := Depth(d, key), Shrunk(merged);
            && (forall y: nat :: Depth(d', y) == if Low(y, l - 1) == Low(key, l - 1) then l - 1 else Depth(d, y))
            && (forall y: nat :: Route(d', y) == if Low(y, l) == Low(key, l) then Route(d, image) else Route(d, y))
  {
    hide Low;
    MergeKeepsTrie(d, key, image, merged);
    ShrunkKeepsTrie(merged);
    assert Depth(d, key) <= d.globalDepth;
    hide Trie;
    forall y: nat
      ensures Depth(merged, y) ==
              if Low(y, Depth(d, key) - 1) == Low(key, Depth(d, key) - 1) then Depth(d, key) - 1 else Depth(d, y)
      ensures Route(merged, y) ==
              if Low(y, Depth(d, key)) == Low(key, Depth(d, key)) then Route(d, image) else Route(d, y)
    {
      MergeRoutes(d, key, Route(d, image), merged, y);
    }
  }

  /** The same without naming a hash of the image. */
  ghost predicate Fused(d: Directory, x: nat, l: nat, d': Directory)
    requires Shape(d) && Shape(d') && 1 <= l
  {
    && (forall y: nat :: Depth(d', y) == if Low(y, l - 1) == Low(x, l - 1) then l - 1 else Depth(d, y))
    && (forall y: nat :: Low(y, l) != Low(x, l) ==> Route(d', y) == Route(d, y))
    && (forall y: nat, z: nat ::
          Low(y, l) == Low(x, l) && Low(z, l - 1) == Low(x, l - 1) && Low(z, l) != Low(x, l) ==>
            Route(d', y) == Route(d, z))
  }

  lemma MergedFused(d: Directory, key: nat, image: nat, merged: Directory)
    requires Trie(d) && IsImage(d, key, image) && Depth(d, image) == Depth(d, key)
    requires IsMerge(d, Low(key, d.globalDepth), Route(d, image), merged)
    ensures Fused(d, key, Depth(d, key), Shrunk(merged))
  {
    hide Low;
    var l, d' := Depth(d, key), Shrunk(merged);
    ImageRoutes(d, key, image);
    MergedRoutes(d, key, image, merged);
    hide Trie, IsMerge, Shrunk, Route, Depth, IsImage, Shape;
    assert forall y: nat :: Low(y, l) == Low(key, l) ==> Route(d', y) == Route(d, image);
  }

  lemma ImageRoutes(d: Directory, key: nat, image: nat)
    requires Trie(d) && IsImage(d, key, image) && Depth(d, image) == Depth(d, key)
    ensures var l := Depth(d, key);
            forall z: nat :: Low(z, l - 1) == Low(key, l - 1) && Low(z, l) != Low(key, l) ==>
                               Route(d, z) == Route(d, image)
  {
    hide Low;
    var l := Depth(d, key);
    hide Trie, Route;
    forall z: nat | Low(z, l - 1) == Low(key, l - 1) && Low(z, l) != Low(key, l)
      ensures Shape(d) && Route(d, z) == Route(d, image)
    {
      ImageHashes(d, key, image, l, z);
    }
  }

  /** What a merge does to the route and the depth of every hash, and to the buckets. */
  lemma MergeStepMeans(t: Table, h: HashFunction, capacity: nat, key: Key, merged: Directory, t': Table)
    requires Consistent(t, h, capacity) && Mergeable(t, h, key) && MergeStep(t, h, key, merged, t')
    ensures Shape(t.dir) && Shape(t'.dir) && 1 <= HomeDepth(t, h, key) && t'.buckets == t.buckets - {Home(t, h, key)}
    ensures Fused(t.dir, h(key), HomeDepth(t, h, key), t'.dir)
  {
    hide Low, Minimal, Fused, Shrunk, IsMerge;
    var d, x, l := t.dir, h(key), HomeDepth(t, h, key);
    assert l <= d.globalDepth;
    SplitImageIsImage(d, x);
    MergedFused(d, x, SplitImage(Low(x, d.globalDepth), l), merged);
  }

  /**
   `Merge`, in full. If the bucket of the key is empty, has a positive depth, and the other half of its class is one
   bucket, then that takes over all its hashes and both halves lose one bit of depth; the page of the key is gone, and
   nothing else changes its route or its depth. In any other case nothing changes at all.
   */
  lemma MergeSectionMeans(t: Table, h: HashFunction, capacity: nat, key: Key, t': Table)
    requires Consistent(t, h, capacity) && MergeSection(t, h, key, t')
    ensures Home(t, h, key) in t.buckets && Shape(t'.dir)
    ensures var l, x := HomeDepth(t, h, key), h(key);
            if && 1 <= l && t.buckets[Home(t, h, key)] == {}
               && forall y: nat :: Low(y, l - 1) == Low(x, l - 1) && Low(y, l) != Low(x, l) ==> Depth(t.dir, y) == l
            then
              && t'.buckets == t.buckets - {Home(t, h, key)}
              && (forall y: nat ::
                    Depth(t'.dir, y) == if Low(y, l - 1) == Low(x, l - 1) then l - 1 else Depth(t.dir, y))
              && (forall y: nat :: Low(y, l) != Low(x, l) ==> Route(t'.dir, y) == Route(t.dir, y))
              && (forall y: nat, z: nat ::
                    Low(y, l) == Low(x, l) && Low(z, l - 1) == Low(x, l - 1) && Low(z, l) != Low(x, l) ==>
                      Route(t'.dir, y) == Route(t.dir, z))
            else
              t' == t
  {
    hide Low, MergeStep, Mergeable;
    MergeableMeans(t, h, capacity, key);
    if Mergeable(t, h, key) {
      var merged :| MergeStep(t, h, key, merged, t');
      MergeStepMeans(t, h, capacity, key, merged, t');
    }
  }
}
