/**
 The directory of the extendible hash table as a value, its trie invariant, and what doubling, splitting, merging and
 shrinking do to the routing of every hash.
 */
module DirectoryModel {
  import opened Types
  import opened Bits

  datatype Directory = Directory(globalDepth: nat, localDepths: seq<nat>, bucketPageIds: seq<PageId>)

  /** The number of live slots. */
  function Size(d: Directory): nat {
    Pow2(d.globalDepth)
  }

  ghost predicate Shape(d: Directory) {
    && d.globalDepth <= MAX_DEPTH
    && Size(d) <= DIRECTORY_ARRAY_SIZE
    && |d.localDepths| == |d.bucketPageIds| == DIRECTORY_ARRAY_SIZE
  }

  /** The bucket page that a hash is routed to. */
  function Route(d: Directory, hash: nat): PageId
    requires Shape(d)
  {
    d.bucketPageIds[Low(hash, d.globalDepth)]
  }

  /** The local depth of that bucket. */
  function Depth(d: Directory, hash: nat): nat
    requires Shape(d)
  {
    d.localDepths[Low(hash, d.globalDepth)]
  }

  /**
   The trie invariant, over all hashes: a bucket of local depth `l` is reached by exactly the hashes that agree with
   any one of its hashes on the low `l` bits. Hence the buckets partition the hashes into the leaves of a binary trie.
   */
  ghost predicate Trie(d: Directory) {
    && Shape(d)
    && (forall x: nat :: Depth(d, x) <= d.globalDepth)
    && (forall x: nat, y: nat ::
          Route(d, x) == Route(d, y) <==> Low(x, Depth(d, x)) == Low(y, Depth(d, x)))
    && (forall x: nat, y: nat :: Route(d, x) == Route(d, y) ==> Depth(d, x) == Depth(d, y))
  }

  /** The same invariant over the live slots: equal ids exactly for equal depths and congruent indices. */
  ghost predicate SlotTrie(d: Directory) {
    && Shape(d)
    && (forall i :: 0 <= i < Size(d) ==> d.localDepths[i] <= d.globalDepth)
    && (forall i, j :: 0 <= i < Size(d) && 0 <= j < Size(d) ==>
          (d.bucketPageIds[i] == d.bucketPageIds[j] <==>
           d.localDepths[i] == d.localDepths[j] && Low(i, d.localDepths[i]) == Low(j, d.localDepths[i])))
    // The classes cover every slot: whoever agrees with `i` on its local depth is in its class.
    && (forall i, j :: 0 <= i < Size(d) && 0 <= j < Size(d) && Low(i, d.localDepths[i]) == Low(j, d.localDepths[i]) ==>
          d.localDepths[i] == d.localDepths[j])
  }

  /** `CanShrink`: no live slot has the global depth. */
  ghost predicate Shrinkable(d: Directory)
    requires Shape(d)
  {
    forall i :: 0 <= i < Size(d) ==> d.localDepths[i] < d.globalDepth
  }

  /** The page ids in live slots. */
  ghost function LiveIds(d: Directory): set<PageId>
    requires Shape(d)
  {
    set i | 0 <= i < Size(d) :: d.bucketPageIds[i]
  }

  /** `GetSplitImageIndex` of a slot whose local depth is `l >= 1`. */
  function SplitImage(slot: nat, l: nat): nat
    requires l >= 1
  {
    BitXor(slot, Pow2(l - 1))
  }

  // ---------- the four updates ----------

  /** `IncrGlobalDepth`: the live half is copied above itself. */
  function Doubled(d: Directory): Directory
    requires Shape(d) && 2 * Size(d) <= DIRECTORY_ARRAY_SIZE
  {
    var n := Size(d);
    Directory(d.globalDepth + 1,
              d.localDepths[..n] + d.localDepths[..n] + d.localDepths[2 * n..],
              d.bucketPageIds[..n] + d.bucketPageIds[..n] + d.bucketPageIds[2 * n..])
  }

  /**
   `d'` is `d` after splitting the bucket of `slot`: its slots gain one bit of depth, and those of them that differ from
   `slot` in that bit move to `newId`. Stale slots above the live ones are not touched.
   */
  ghost predicate IsSplit(d: Directory, slot: nat, newId: PageId, d': Directory)
    requires Shape(d) && slot < Size(d)
  {
    var l := d.localDepths[slot];
    && Shape(d') && d'.globalDepth == d.globalDepth
    && (forall i :: 0 <= i < DIRECTORY_ARRAY_SIZE ==>
          d'.localDepths[i] == if i < Size(d) && Low(i, l) == Low(slot, l) then l + 1 else d.localDepths[i])
    && (forall i :: 0 <= i < DIRECTORY_ARRAY_SIZE ==>
          d'.bucketPageIds[i] == if i < Size(d) && Low(i, l) == Low(slot, l) && Low(i, l + 1) != Low(slot, l + 1)
                                 then newId else d.bucketPageIds[i])
  }

  /**
   `d'` is `d` after merging the bucket of `slot` into `partner`: the slots of the former are redirected to the latter,
   and everyone who agrees with `slot` on all but the last bit of its depth loses that bit.
   */
  ghost predicate IsMerge(d: Directory, slot: nat, partner: PageId, d': Directory)
    requires Shape(d) && slot < Size(d) && 1 <= d.localDepths[slot]
  {
    var l := d.localDepths[slot];
    && Shape(d') && d'.globalDepth == d.globalDepth
    && (forall i :: 0 <= i < DIRECTORY_ARRAY_SIZE ==>
          d'.localDepths[i] == if i < Size(d) && Low(i, l - 1) == Low(slot, l - 1) then l - 1 else d.localDepths[i])
    && (forall i :: 0 <= i < DIRECTORY_ARRAY_SIZE ==>
          d'.bucketPageIds[i] == if i < Size(d) && Low(i, l) == Low(slot, l) then partner else d.bucketPageIds[i])
  }

  /** `image` is a hash of the split image of the bucket of `key`. */
  ghost predicate IsImage(d: Directory, key: nat, image: nat)
    requires Shape(d)
  {
    var l := Depth(d, key);
    l >= 1 && Low(image, l - 1) == Low(key, l - 1) && Low(image, l) != Low(key, l)
  }

  /** `while (CanShrink()) DecrGlobalDepth()`. */
  ghost function Shrunk(d: Directory): (r: Directory)
    requires Shape(d)
    ensures Shape(r) && !Shrinkable(r)
    ensures r.globalDepth <= d.globalDepth
    ensures r.localDepths == d.localDepths && r.bucketPageIds == d.bucketPageIds
    decreases d.globalDepth
  {
    if Shrinkable(d) then
      assert 0 < d.globalDepth by {
        assert d.localDepths[0] < d.globalDepth;
      }
      Pow2Monotone(d.globalDepth - 1, d.globalDepth);
      Shrunk(d.(globalDepth := d.globalDepth - 1))
    else
      d
  }

  // ---------- the invariant in its two forms ----------

  lemma RouteIsLive(d: Directory, x: nat)
    requires Shape(d)
    ensures Route(d, x) in LiveIds(d)
  {
  }

  lemma SlotIsItsOwnHash(d: Directory, i: nat)
    requires Shape(d) && i < Size(d)
    ensures Low(i, d.globalDepth) == i
    ensures Route(d, i) == d.bucketPageIds[i] && Depth(d, i) == d.localDepths[i]
  {
    LowSmall(i, d.globalDepth);
  }

  lemma TrieHasSlotTrie(d: Directory)
    requires Trie(d)
    ensures SlotTrie(d)
  {
    hide Low;
    forall i: nat, j: nat | i < Size(d) && j < Size(d)
      ensures Route(d, i) == d.bucketPageIds[i] && Depth(d, i) == d.localDepths[i]
      ensures Route(d, j) == d.bucketPageIds[j] && Depth(d, j) == d.localDepths[j]
    {
      SlotIsItsOwnHash(d, i);
      SlotIsItsOwnHash(d, j);
    }
  }

  lemma SlotTrieHasTrie(d: Directory)
    requires SlotTrie(d)
    ensures Trie(d)
  {
    hide Low;
    forall x: nat, y: nat
      ensures Route(d, x) == Route(d, y) <==> Low(x, Depth(d, x)) == Low(y, Depth(d, x))
      ensures Route(d, x) == Route(d, y) ==> Depth(d, x) == Depth(d, y)
    {
      var i, j := Low(x, d.globalDepth), Low(y, d.globalDepth);
      LowLow(x, d.localDepths[i], d.globalDepth);
      LowLow(y, d.localDepths[i], d.globalDepth);
    }
  }

  lemma TrieIffSlotTrie(d: Directory)
    ensures Trie(d) <==> SlotTrie(d)
  {
    hide Trie, SlotTrie;
    if Trie(d) {
      TrieHasSlotTrie(d);
    }
    if SlotTrie(d) {
      SlotTrieHasTrie(d);
    }
  }

  // ---------- what each update does to every route ----------

  lemma DoubledRoutes(d: Directory, x: nat)
    requires Shape(d) && 2 * Size(d) <= DIRECTORY_ARRAY_SIZE
    ensures Shape(Doubled(d))
    ensures Route(Doubled(d), x) == Route(d, x) && Depth(Doubled(d), x) == Depth(d, x)
  {
    hide Low;
    assert d.globalDepth < MAX_DEPTH by {
      Pow2Nine();
      if d.globalDepth >= MAX_DEPTH {
        Pow2Monotone(9, d.globalDepth);
      }
    }
    LowStep(x, d.globalDepth);
  }

  /** Doubling is possible exactly below the maximal depth. */
  lemma CanDouble(d: Directory)
    requires Shape(d)
    ensures 2 * Size(d) <= DIRECTORY_ARRAY_SIZE <==> d.globalDepth < MAX_DEPTH
    ensures Size(d) > DIRECTORY_ARRAY_SIZE / 2 <==> d.globalDepth == MAX_DEPTH
  {
    Pow2Nine();
    if d.globalDepth < MAX_DEPTH {
      Pow2Monotone(d.globalDepth + 1, 9);
    } else {
      assert d.globalDepth == 9;
    }
  }

  lemma DoubledKeepsTrie(d: Directory)
    requires Trie(d) && d.globalDepth < MAX_DEPTH
    ensures 2 * Size(d) <= DIRECTORY_ARRAY_SIZE && Trie(Doubled(d))
    ensures forall x: nat :: Route(Doubled(d), x) == Route(d, x) && Depth(Doubled(d), x) == Depth(d, x)
  {
    hide Low;
    CanDouble(d);
    forall x: nat
      ensures Shape(Doubled(d)) && Route(Doubled(d), x) == Route(d, x) && Depth(Doubled(d), x) == Depth(d, x)
    {
      DoubledRoutes(d, x);
    }
  }

  /** After a split of the bucket of `key`: who keeps the old page, who moves to the new one, who is not concerned. */
  lemma SplitRoutes(d: Directory, key: nat, newId: PageId, d': Directory, x: nat)
    requires Shape(d) && Depth(d, key) < d.globalDepth
    requires IsSplit(d, Low(key, d.globalDepth), newId, d')
    ensures var l := Depth(d, key);
            && Depth(d', x) == (if Low(x, l) == Low(key, l) then l + 1 else Depth(d, x))
            && Route(d', x) == (if Low(x, l) == Low(key, l) && Low(x, l + 1) != Low(key, l + 1) then newId
                                else Route(d, x))
  {
    hide Low;
    var l, g := Depth(d, key), d.globalDepth;
    LowLow(x, l, g);
    LowLow(x, l + 1, g);
    LowLow(key, l, g);
    LowLow(key, l + 1, g);
  }

  lemma SplitPair(d: Directory, key: nat, newId: PageId, d': Directory, x: nat, y: nat)
    requires Trie(d) && Depth(d, key) < d.globalDepth && newId !in LiveIds(d)
    requires IsSplit(d, Low(key, d.globalDepth), newId, d')
    ensures Depth(d', x) <= d'.globalDepth
    ensures Route(d', x) == Route(d', y) <==> Low(x, Depth(d', x)) == Low(y, Depth(d', x))
    ensures Route(d', x) == Route(d', y) ==> Depth(d', x) == Depth(d', y)
  {
    hide Low;
    var l := Depth(d, key);
    SplitRoutes(d, key, newId, d', x);
    SplitRoutes(d, key, newId, d', y);
    RouteIsLive(d, x);
    RouteIsLive(d, y);
    assert Route(d, key) == Route(d, x) <==> Low(x, l) == Low(key, l);
    assert Route(d, key) == Route(d, y) <==> Low(y, l) == Low(key, l);
    if Low(x, l) == Low(key, l) {
      LowStepAgree(x, y, l);
      LowStepAgree(x, key, l);
      LowStepAgree(y, key, l);
    } else {
      assert Route(d, x) == Route(d, y) <==> Low(x, Depth(d, x)) == Low(y, Depth(d, x));
    }
  }

  lemma SplitKeepsTrie(d: Directory, key: nat, newId: PageId, d': Directory)
    requires Trie(d) && Depth(d, key) < d.globalDepth && newId !in LiveIds(d)
    requires IsSplit(d, Low(key, d.globalDepth), newId, d')
    ensures Trie(d')
  {
    hide Low;
    forall x: nat, y: nat
      ensures Depth(d', x) <= d'.globalDepth
      ensures Route(d', x) == Route(d', y) <==> Low(x, Depth(d', x)) == Low(y, Depth(d', x))
      ensures Route(d', x) == Route(d', y) ==> Depth(d', x) == Depth(d', y)
    {
      SplitPair(d, key, newId, d', x, y);
    }
  }

  /** The slots that carry the split image's bit are those that leave the class at depth `l + 1`. */
  lemma SplitImageClass(slot: nat, i: nat, l: nat)
    ensures Low(i, l + 1) == Low(SplitImage(slot, l + 1), l + 1)
            <==> Low(i, l) == Low(slot, l) && Low(i, l + 1) != Low(slot, l + 1)
  {
    hide Low;
    var image := SplitImage(slot, l + 1);
    var g := SomeBound(slot, l + 1);
    XorKeeps(slot, l, g);
    XorBit(slot, l, l);
    LowStepAgree(i, image, l);
    LowStepAgree(i, slot, l);
  }

  lemma SomeBound(x: nat, d: nat) returns (g: nat)
    ensures x < Pow2(g) && d <= g
  {
    g := d;
    while Pow2(g) <= x
      invariant d <= g
      decreases x - Pow2(g)
    {
      g := g + 1;
    }
  }

  // ---------- merging ----------

  lemma SplitImageIsImage(d: Directory, key: nat)
    requires Shape(d) && 1 <= Depth(d, key) <= d.globalDepth
    ensures var image := SplitImage(Low(key, d.globalDepth), Depth(d, key));
            image < Size(d) && IsImage(d, key, image) && Route(d, image) == d.bucketPageIds[image]
  {
    hide Low;
    var l, g := Depth(d, key), d.globalDepth;
    var slot := Low(key, g);
    var image := SplitImage(slot, l);
    XorKeeps(slot, l - 1, g);
    XorBit(slot, l - 1, l - 1);
    SlotIsItsOwnHash(d, image);
    LowLow(key, l - 1, g);
    LowLow(key, l, g);
    LowStepAgree(image, slot, l - 1);
  }

  /** The split image of a bucket is another bucket, never a shallower one. */
  lemma ImageIsElsewhere(d: Directory, key: nat, image: nat)
    requires Trie(d) && IsImage(d, key, image)
    ensures Route(d, image) != Route(d, key) && Depth(d, image) >= Depth(d, key)
  {
    hide Low;
    var l := Depth(d, key);
    assert Route(d, key) == Route(d, image) <==> Low(key, l) == Low(image, l);
    assert Route(d, image) == Route(d, key) <==> Low(image, Depth(d, image)) == Low(key, Depth(d, image));
    if Depth(d, image) < l {
      LowWeaken(image, key, Depth(d, image), l - 1);
    }
  }

  /** Whoever agrees with `key` below bit `l - 1` agrees at `l` with `key` or with its image. */
  lemma ImageCases(key: nat, image: nat, l: nat, x: nat)
    requires l >= 1 && Low(image, l - 1) == Low(key, l - 1) && Low(image, l) != Low(key, l)
    ensures Low(x, l - 1) == Low(key, l - 1) <==> Low(x, l) == Low(key, l) || Low(x, l) == Low(image, l)
  {
    hide Low;
    LowStepAgree(x, key, l - 1);
    LowStepAgree(x, image, l - 1);
    LowStepAgree(image, key, l - 1);
  }

  lemma MergeRoutes(d: Directory, key: nat, partner: PageId, d': Directory, x: nat)
    requires Shape(d) && 1 <= Depth(d, key) <= d.globalDepth
    requires IsMerge(d, Low(key, d.globalDepth), partner, d')
    ensures var l := Depth(d, key);
            && Depth(d', x) == (if Low(x, l - 1) == Low(key, l - 1) then l - 1 else Depth(d, x))
            && Route(d', x) == (if Low(x, l) == Low(key, l) then partner else Route(d, x))
  {
    hide Low;
    var l, g := Depth(d, key), d.globalDepth;
    LowLow(x, l - 1, g);
    LowLow(x, l, g);
    LowLow(key, l - 1, g);
    LowLow(key, l, g);
  }

  lemma MergePair(d: Directory, key: nat, image: nat, d': Directory, x: nat, y: nat)
    requires Trie(d) && IsImage(d, key, image) && Depth(d, image) == Depth(d, key)
    requires IsMerge(d, Low(key, d.globalDepth), Route(d, image), d')
    ensures Depth(d', x) <= d'.globalDepth
    ensures Route(d', x) == Route(d', y) <==> Low(x, Depth(d', x)) == Low(y, Depth(d', x))
    ensures Route(d', x) == Route(d', y) ==> Depth(d', x) == Depth(d', y)
    ensures Route(d', x) == if Route(d, x) == Route(d, key) then Route(d, image) else Route(d, x)
  {
    hide Low;
    var l, p := Depth(d, key), Route(d, image);
    assert Route(d, key) == Route(d, x) <==> Low(x, l) == Low(key, l);
    assert Route(d, key) == Route(d, y) <==> Low(y, l) == Low(key, l);
    assert Route(d, image) == Route(d, x) <==> Low(x, l) == Low(image, l);
    assert Route(d, image) == Route(d, y) <==> Low(y, l) == Low(image, l);
    assert Route(d, x) == Route(d, y) <==> Low(x, Depth(d, x)) == Low(y, Depth(d, x));
    MergeRoutes(d, key, p, d', x);
    MergeRoutes(d, key, p, d', y);
    ImageCases(key, image, l, x);
    ImageCases(key, image, l, y);
  }

  /** Equal-depth images fuse into one class of depth `l - 1`. */
  lemma MergeKeepsTrie(d: Directory, key: nat, image: nat, d': Directory)
    requires Trie(d) && IsImage(d, key, image) && Depth(d, image) == Depth(d, key)
    requires IsMerge(d, Low(key, d.globalDepth), Route(d, image), d')
    ensures Trie(d')
    ensures forall x: nat ::
              Route(d', x) == if Route(d, x) == Route(d, key) then Route(d, image) else Route(d, x)
  {
    hide Low;
    forall x: nat, y: nat
      ensures Depth(d', x) <= d'.globalDepth
      ensures Route(d', x) == Route(d', y) <==> Low(x, Depth(d', x)) == Low(y, Depth(d', x))
      ensures Route(d', x) == Route(d', y) ==> Depth(d', x) == Depth(d', y)
      ensures Route(d', x) == if Route(d, x) == Route(d, key) then Route(d, image) else Route(d, x)
    {
      MergePair(d, key, image, d', x, y);
    }
  }

  // ---------- shrinking ----------

  /** When no slot has the global depth, both halves of the directory agree, so dropping one loses no route. */
  lemma ShrinkOnceRoutes(d: Directory, x: nat)
    requires Trie(d) && Shrinkable(d)
    ensures d.globalDepth > 0
    ensures var d' := d.(globalDepth := d.globalDepth - 1);
            Shape(d') && Route(d', x) == Route(d, x) && Depth(d', x) == Depth(d, x)
  {
    hide Low;
    var g := d.globalDepth;
    var i := Low(x, g);
    assert d.localDepths[i] < g;
    Pow2Monotone(g - 1, g);
    var j := Low(x, g - 1);
    SlotIsItsOwnHash(d, j);
    LowLow(x, Depth(d, x), g - 1);
    assert Route(d, x) == Route(d, j) <==> Low(x, Depth(d, x)) == Low(j, Depth(d, x));
  }

  lemma ShrinkOnceKeepsTrie(d: Directory)
    requires Trie(d) && Shrinkable(d)
    ensures d.globalDepth > 0 && Trie(d.(globalDepth := d.globalDepth - 1))
    ensures forall x: nat :: Route(d.(globalDepth := d.globalDepth - 1), x) == Route(d, x)
    ensures forall x: nat :: Depth(d.(globalDepth := d.globalDepth - 1), x) == Depth(d, x)
  {
    hide Low;
    assert d.localDepths[0] < d.globalDepth;
    var d' := d.(globalDepth := d.globalDepth - 1);
    forall x: nat
      ensures Shape(d') && Route(d', x) == Route(d, x) && Depth(d', x) == Depth(d, x) <= d'.globalDepth
    {
      ShrinkOnceRoutes(d, x);
      assert d.localDepths[Low(x, d.globalDepth)] < d.globalDepth;
    }
  }

  /** The whole shrink loop leaves every route unchanged, and stops at the smallest directory. */
  lemma {:induction false} ShrunkKeepsTrie(d: Directory)
    requires Trie(d)
    ensures Trie(Shrunk(d)) && !Shrinkable(Shrunk(d))
    ensures forall x: nat :: Route(Shrunk(d), x) == Route(d, x) && Depth(Shrunk(d), x) == Depth(d, x)
    decreases d.globalDepth
  {
    hide Low;
    if Shrinkable(d) {
      ShrinkOnceKeepsTrie(d);
      ShrunkKeepsTrie(d.(globalDepth := d.globalDepth - 1));
    }
  }

  // ---------- minimality ----------

  /** The global depth is the maximum of the local depths. */
  ghost predicate Minimal(d: Directory)
    requires Shape(d)
  {
    exists x: nat :: Depth(d, x) == d.globalDepth
  }

  lemma MinimalIffNotShrinkable(d: Directory)
    requires Trie(d)
    ensures Minimal(d) <==> !Shrinkable(d)
  {
    hide Low;
    if !Shrinkable(d) {
      var i :| 0 <= i < Size(d) && d.localDepths[i] >= d.globalDepth;
      SlotIsItsOwnHash(d, i);
      assert Depth(d, i) == d.globalDepth;
    }
  }

  /** A split is preceded by a doubling exactly when needed, so it leaves the directory minimal. */
  lemma SplitKeepsMinimal(d: Directory, key: nat, newId: PageId, d': Directory)
    requires Trie(d) && Depth(d, key) < d.globalDepth
    requires IsSplit(d, Low(key, d.globalDepth), newId, d')
    requires Minimal(d) || Depth(d, key) == d.globalDepth - 1
    ensures Minimal(d')
  {
    hide Low;
    if Depth(d, key) == d.globalDepth - 1 {
      SplitRoutes(d, key, newId, d', key);
      assert Depth(d', key) == d'.globalDepth;
    } else {
      var x: nat :| Depth(d, x) == d.globalDepth;
      SplitRoutes(d, key, newId, d', x);
      assert Route(d, key) == Route(d, x) <==> Low(x, Depth(d, key)) == Low(key, Depth(d, key));
      assert Depth(d', x) == d'.globalDepth;
    }
  }

  // ---------- VerifyIntegrity ----------

  function Slots(d: Directory): seq<PageId>
    requires Shape(d)
  {
    d.bucketPageIds[..Size(d)]
  }

  /** What `VerifyIntegrity` asserts: bounded depths, one depth a page, `2^(global - local)` pointers to each page. */
  ghost predicate Integrity(d: Directory)
    requires Shape(d)
  {
    && (forall i :: 0 <= i < Size(d) ==> d.localDepths[i] <= d.globalDepth)
    && (forall i, j :: 0 <= i < Size(d) && 0 <= j < Size(d) && d.bucketPageIds[i] == d.bucketPageIds[j] ==>
          d.localDepths[i] == d.localDepths[j])
    && (forall i :: 0 <= i < Size(d) ==>
          multiset(Slots(d))[d.bucketPageIds[i]] == Pow2(d.globalDepth - d.localDepths[i]))
  }

  lemma {:induction false} SamePatternSameCount<T>(s: seq<T>, t: seq<T>, p: T)
    requires |s| == |t|
    requires forall i :: 0 <= i < |s| ==> (s[i] == p <==> t[i] == p)
    ensures multiset(s)[p] == multiset(t)[p]
  {
    if |s| > 0 {
      var n := |s| - 1;
      assert s == s[..n] + [s[n]] && t == t[..n] + [t[n]];
      SamePatternSameCount(s[..n], t[..n], p);
    }
  }

  /** The cardinality of a residue class: the members of a class modulo `2^l` below `2^g`. */
  lemma {:induction false} ClassSize(s: seq<PageId>, p: PageId, r: nat, l: nat, g: nat)
    requires l <= g && |s| == Pow2(g) && r < Pow2(l)
    requires forall i :: 0 <= i < |s| ==> (s[i] == p <==> Low(i, l) == r)
    ensures multiset(s)[p] == Pow2(g - l)
  {
    hide Low;
    if l == g {
      forall i: nat | i < |s|
        ensures s[i] == p <==> i == r
      {
        LowSmall(i, l);
      }
      assert s == s[..r] + [s[r]] + s[r + 1..];
      assert p !in s[..r] && p !in s[r + 1..];
    } else {
      var h := Pow2(g - 1);
      assert s == s[..h] + s[h..];
      forall i: nat | i < h
        ensures s[i] == p <==> s[h..][i] == p
      {
        LowClassShift(i, l, g - 1);
      }
      SamePatternSameCount(s[..h], s[h..], p);
      ClassSize(s[..h], p, r, l, g - 1);
    }
  }

  lemma LowClassShift(x: nat, l: nat, g: nat)
    requires l <= g
    ensures Low(x + Pow2(g), l) == Low(x, l)
  {
    LowStride(x, g);
    LowWeaken(x + Pow2(g), x, l, g);
  }

  // ---------- the pointer counts add up ----------

  ghost function AnyOf<T>(s: set<T>): (x: T)
    requires s != {}
    ensures x in s
  {
    var x :| x in s; x
  }

  lemma SomeElement<T>(m: multiset<T>) returns (x: T)
    requires m != multiset{}
    ensures x in m
  {
    x :| x in m;
  }

  /** The one depth of a page. */
  ghost function PageDepth(d: Directory, p: PageId): (l: nat)
    requires Shape(d) && Integrity(d) && p in LiveIds(d)
    ensures l <= d.globalDepth
    ensures forall i :: 0 <= i < Size(d) && d.bucketPageIds[i] == p ==> d.localDepths[i] == l
  {
    var i :| 0 <= i < Size(d) && d.bucketPageIds[i] == p;
    d.localDepths[i]
  }

  /** The sum of `2^(global - local)` over a set of pages. */
  ghost function PointerSum(d: Directory, ids: set<PageId>): nat
    requires Shape(d) && Integrity(d) && ids <= LiveIds(d)
  {
    if ids == {} then
      0
    else
      var p := AnyOf(ids);
      Pow2(d.globalDepth - PageDepth(d, p)) + PointerSum(d, ids - {p})
  }

  /** A page that passes the check has as many pointers as its depth requires. */
  lemma RequiredCount(d: Directory, p: PageId)
    requires Shape(d) && Integrity(d) && p in LiveIds(d)
    ensures multiset(Slots(d))[p] == Pow2(d.globalDepth - PageDepth(d, p))
  {
    hide Pow2;
    var i :| 0 <= i < Size(d) && d.bucketPageIds[i] == p;
    assert d.localDepths[i] == PageDepth(d, p);
  }

  lemma {:induction false} PointerSumIsSize(d: Directory, ids: set<PageId>, m: multiset<PageId>)
    requires Shape(d) && Integrity(d) && ids <= LiveIds(d)
    requires forall p :: p in m <==> p in ids
    requires forall p :: p in ids ==> m[p] == multiset(Slots(d))[p]
    ensures PointerSum(d, ids) == |m|
    decreases ids
  {
    hide Pow2, Integrity, LiveIds, PageDepth, Slots, Shape;
    if ids != {} {
      var q := AnyOf(ids);
      assert q in ids;
      assert q in m;
    }
    if m != multiset{} {
      var some := SomeElement(m);
      assert some in ids;
      var p := AnyOf(ids);
      RequiredCount(d, p);
      PointerSumIsSize(d, ids - {p}, m[p := 0]);
    }
  }

  /**
   Whatever passes `VerifyIntegrity`: summed over its pages, the required counts are `2^global`, the directory size.
   */
  lemma PointersAddUp(d: Directory)
    requires Shape(d) && Integrity(d)
    ensures PointerSum(d, LiveIds(d)) == Size(d)
  {
    hide Pow2;
    var slots := Slots(d);
    forall p
      ensures p in multiset(slots) <==> p in LiveIds(d)
    {
      if p in slots {
        var i :| 0 <= i < |slots| && slots[i] == p;
        assert d.bucketPageIds[i] == p;
      }
      if i :| 0 <= i < Size(d) && d.bucketPageIds[i] == p {
        assert slots[i] == p;
      }
    }
    hide Integrity;
    PointerSumIsSize(d, LiveIds(d), multiset(slots));
  }

  /** `VerifyIntegrity` never trips on a trie; the counts it requires of the pages sum to the size of the directory. */
  lemma TrieHasIntegrity(d: Directory)
    requires Trie(d)
    ensures Integrity(d)
    ensures PointerSum(d, LiveIds(d)) == Size(d)
  {
    hide Low;
    TrieIffSlotTrie(d);
    forall i: nat | i < Size(d)
      ensures multiset(Slots(d))[d.bucketPageIds[i]] == Pow2(d.globalDepth - d.localDepths[i])
    {
      var l := d.localDepths[i];
      ClassSize(Slots(d), d.bucketPageIds[i], Low(i, l), l, d.globalDepth);
    }
    PointersAddUp(d);
  }

  // ---------- what `VerifyIntegrity` does not see ----------

  /** Slots of one page agree on the bits of its depth. */
  ghost predicate Aligned(d: Directory)
    requires Shape(d)
  {
    forall i, j :: 0 <= i < Size(d) && 0 <= j < Size(d) && d.bucketPageIds[i] == d.bucketPageIds[j] ==>
      Low(i, d.localDepths[i]) == Low(j, d.localDepths[i])
  }

  /** A sub-pattern with as many occurrences is the whole pattern. */
  lemma {:induction false} SubPattern<T>(s: seq<T>, t: seq<T>, p: T)
    requires |s| == |t|
    requires forall i :: 0 <= i < |s| && s[i] == p ==> t[i] == p
    ensures multiset(s)[p] <= multiset(t)[p]
    ensures multiset(s)[p] == multiset(t)[p] ==> forall i :: 0 <= i < |s| && t[i] == p ==> s[i] == p
  {
    if |s| > 0 {
      var n := |s| - 1;
      assert s == s[..n] + [s[n]] && t == t[..n] + [t[n]];
      SubPattern(s[..n], t[..n], p);
    }
  }

  /** Aligned pages with the right number of pointers fill their residue classes. */
  lemma ClassIsFull(d: Directory, i: nat, j: nat)
    requires Shape(d) && Integrity(d) && Aligned(d)
    requires i < Size(d) && j < Size(d) && Low(i, d.localDepths[i]) == Low(j, d.localDepths[i])
    ensures d.bucketPageIds[j] == d.bucketPageIds[i]
  {
    hide Low, Pow2;
    var p, l, s := d.bucketPageIds[i], d.localDepths[i], Slots(d);
    var t := seq(|s|, k requires 0 <= k < |s| => if Low(k, l) == Low(i, l) then p else p + 1);
    ClassSize(t, p, Low(i, l), l, d.globalDepth);
    forall k | 0 <= k < |s| && s[k] == p
      ensures t[k] == p
    {
      assert d.bucketPageIds[k] == p;
    }
    SubPattern(s, t, p);
    assert t[j] == p;
  }

  /** The exact condition: what passes `VerifyIntegrity` is a trie if and only if its pages are aligned. */
  lemma TrieIffIntegrityAligned(d: Directory)
    requires Shape(d)
    ensures Trie(d) <==> Integrity(d) && Aligned(d)
  {
    hide Low, Pow2;
    TrieIffSlotTrie(d);
    if Trie(d) {
      TrieHasIntegrity(d);
    }
    if Integrity(d) && Aligned(d) {
      forall i: nat, j: nat | i < Size(d) && j < Size(d) && Low(i, d.localDepths[i]) == Low(j, d.localDepths[i])
        ensures d.bucketPageIds[i] == d.bucketPageIds[j] && d.localDepths[i] == d.localDepths[j]
      {
        ClassIsFull(d, i, j);
      }
      assert SlotTrie(d);
    }
  }

  /** Without alignment it need not be: these four slots pass every assertion of `VerifyIntegrity`, and are no trie. */
  lemma IntegrityIsWeaker(d: Directory, a: PageId, b: PageId)
    requires Shape(d) && d.globalDepth == 2 && a != b
    requires d.localDepths[..4] == [1, 1, 1, 1] && d.bucketPageIds[..4] == [a, a, b, b]
    ensures Integrity(d) && !Aligned(d) && !Trie(d)
  {
    assert Slots(d) == [a, a, b, b];
    assert Pow2(1) == 2 && Pow2(2) == 4;
    forall i | 0 <= i < 4
      ensures d.localDepths[i] == 1 && d.bucketPageIds[i] == Slots(d)[i]
      ensures multiset(Slots(d))[Slots(d)[i]] == 2
    {
      assert d.localDepths[i] == d.localDepths[..4][i];
    }
    assert Low(0, 1) != Low(1, 1);
    assert d.bucketPageIds[0] == d.bucketPageIds[1];
    TrieIffIntegrityAligned(d);
  }
}
