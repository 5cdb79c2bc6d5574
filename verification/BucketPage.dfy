/** Bucket pages: two bitmaps and an array of pairs with tombstones. */
module BucketPages {
  import opened Types
  import opened Bitmap

  /** The bytes of a bucket page. */
  datatype BucketImage = BucketImage(occupied: seq<bv8>, readable: seq<bv8>, slots: seq<Pair>)

  ghost predicate Sized(b: BucketImage, capacity: nat) {
    && capacity > 0
    && |b.occupied| == |b.readable| == BytesFor(capacity)
    && |b.slots| == capacity
  }

  ghost predicate Occupied(b: BucketImage, i: nat)
    requires i / 8 < |b.occupied|
  {
    Flag(b.occupied, i)
  }

  ghost predicate Readable(b: BucketImage, i: nat)
    requires i / 8 < |b.readable|
  {
    Flag(b.readable, i)
  }

  /** Occupied slots form a prefix that contains every readable slot, and no pair is stored twice. */
  ghost predicate WellFormed(b: BucketImage, capacity: nat) {
    && Sized(b, capacity)
    && (forall i, j :: 0 <= i < j < capacity && Occupied(b, j) ==> Occupied(b, i))
    && (forall i :: 0 <= i < capacity && Readable(b, i) ==> Occupied(b, i))
    && (forall i, j :: 0 <= i < j < capacity && Readable(b, i) && Readable(b, j) ==> b.slots[i] != b.slots[j])
  }

  /** The live pairs among the first `n` slots. */
  ghost function LiveBelow(b: BucketImage, capacity: nat, n: nat): set<Pair>
    requires Sized(b, capacity) && n <= capacity
  {
    set i | 0 <= i < n && Readable(b, i) :: b.slots[i]
  }

  /** The live pairs. */
  ghost function Live(b: BucketImage, capacity: nat): set<Pair>
    requires Sized(b, capacity)
  {
    LiveBelow(b, capacity, capacity)
  }

  /** The values stored under `key` among the first `n` slots, in slot order. */
  ghost function ValuesBelow(b: BucketImage, capacity: nat, key: Key, n: nat): seq<Value>
    requires Sized(b, capacity) && n <= capacity
  {
    if n == 0 then
      []
    else
      var here := if Readable(b, n - 1) && b.slots[n - 1].key == key then [b.slots[n - 1].value] else [];
      ValuesBelow(b, capacity, key, n - 1) + here
  }

  /** And the slots they come from. */
  ghost function SlotsBelow(b: BucketImage, capacity: nat, key: Key, n: nat): seq<nat>
    requires Sized(b, capacity) && n <= capacity
  {
    if n == 0 then
      []
    else
      SlotsBelow(b, capacity, key, n - 1) + (if Readable(b, n - 1) && b.slots[n - 1].key == key then [n - 1] else [])
  }

  /** These are all the slots of the key, in order. */
  lemma {:induction false} SlotsInOrder(b: BucketImage, capacity: nat, key: Key, n: nat)
    requires Sized(b, capacity) && n <= capacity
    ensures var at, values := SlotsBelow(b, capacity, key, n), ValuesBelow(b, capacity, key, n);
            && |values| == |at| && (forall i, j :: 0 <= i < j < |at| ==> at[i] < at[j])
            && (forall i :: 0 <= i < |at| ==>
                  at[i] < n && Readable(b, at[i]) && b.slots[at[i]] == Pair(key, values[i]))
            && (forall j: nat :: j < n && Readable(b, j) && b.slots[j].key == key ==> j in at)
  {
    hide Flag;
    if n > 0 {
      SlotsInOrder(b, capacity, key, n - 1);
    }
  }

  /** What the pass of a lookup comes to. */
  lemma Found(b: BucketImage, capacity: nat, key: Key, result: seq<Value>, values: seq<Value>)
    requires WellFormed(b, capacity) && values == result + ValuesBelow(b, capacity, key, capacity)
    ensures var at := SlotsBelow(b, capacity, key, capacity);
            && result <= values && |values| == |result| + |at|
            && (forall v :: multiset(values[|result|..])[v] == if Pair(key, v) in Live(b, capacity) then 1 else 0)
            && (|values| > |result| <==> exists v :: Pair(key, v) in Live(b, capacity))
            && (forall m, n :: 0 <= m < n < |at| ==> at[m] < at[n])
            && (forall m :: 0 <= m < |at| ==>
                  at[m] < capacity && Readable(b, at[m]) && b.slots[at[m]] == Pair(key, values[|result| + m]))
            && (forall j: nat :: j < capacity && Readable(b, j) && b.slots[j].key == key ==> j in at)
  {
    hide Flag, Live, LiveBelow, ValuesBelow, SlotsBelow;
    var all := ValuesBelow(b, capacity, key, capacity);
    AllValuesOnce(b, capacity, key);
    SlotsInOrder(b, capacity, key, capacity);
    assert values[|result|..] == all;
  }

  lemma LiveBelowStep(b: BucketImage, capacity: nat, n: nat)
    requires Sized(b, capacity) && n < capacity
    ensures LiveBelow(b, capacity, n + 1) == LiveBelow(b, capacity, n) + (if Readable(b, n) then {b.slots[n]} else {})
  {
    hide Flag;
  }

  lemma LiveBelowNew(b: BucketImage, capacity: nat, n: nat)
    requires WellFormed(b, capacity) && n < capacity && Readable(b, n)
    ensures b.slots[n] !in LiveBelow(b, capacity, n)
    ensures |LiveBelow(b, capacity, n + 1)| == |LiveBelow(b, capacity, n)| + 1
  {
    hide Flag;
    LiveBelowStep(b, capacity, n);
  }

  lemma LiveBelowSize(b: BucketImage, capacity: nat, n: nat)
    requires WellFormed(b, capacity) && n < capacity
    ensures |LiveBelow(b, capacity, n + 1)| == |LiveBelow(b, capacity, n)| + if Readable(b, n) then 1 else 0
  {
    hide Flag;
    if Readable(b, n) {
      LiveBelowNew(b, capacity, n);
    } else {
      LiveBelowStep(b, capacity, n);
    }
  }

  lemma {:induction false} LiveBelowAtMost(b: BucketImage, capacity: nat, n: nat)
    requires WellFormed(b, capacity) && n <= capacity
    ensures |LiveBelow(b, capacity, n)| <= n
    ensures |LiveBelow(b, capacity, n)| == n <==> forall i :: 0 <= i < n ==> Readable(b, i)
  {
    hide Flag, Readable, Occupied;
    if n == 0 {
      assert LiveBelow(b, capacity, n) == {};
    } else {
      LiveBelowAtMost(b, capacity, n - 1);
      LiveBelowSize(b, capacity, n - 1);
      hide LiveBelow, WellFormed;
    }
  }

  /** A bucket is full exactly when it holds as many pairs as it has slots. */
  lemma FullIffCapacity(b: BucketImage, capacity: nat)
    requires WellFormed(b, capacity)
    ensures |Live(b, capacity)| <= capacity
    ensures |Live(b, capacity)| == capacity <==> forall i :: 0 <= i < capacity ==> Readable(b, i)
  {
    hide Flag;
    LiveBelowAtMost(b, capacity, capacity);
  }

  /** Beyond the first unoccupied slot there is nothing to see: a scan may stop there. */
  lemma {:induction false} NothingBeyond(b: BucketImage, capacity: nat, key: Key, n: nat, m: nat)
    requires WellFormed(b, capacity) && n < m <= capacity && !Occupied(b, n)
    ensures LiveBelow(b, capacity, m) == LiveBelow(b, capacity, n)
    ensures ValuesBelow(b, capacity, key, m) == ValuesBelow(b, capacity, key, n)
  {
    hide Flag;
    assert !Readable(b, m - 1);
    LiveBelowStep(b, capacity, m - 1);
    if n < m - 1 {
      NothingBeyond(b, capacity, key, n, m - 1);
    }
  }

  lemma CountAppend<T>(s: seq<T>, x: T, v: T)
    ensures multiset(s + [x])[v] == multiset(s)[v] + (if x == v then 1 else 0)
  {
  }

  /** The values of a key come out exactly once each. */
  lemma {:induction false} ValuesOnce(b: BucketImage, capacity: nat, key: Key, n: nat, v: Value)
    requires WellFormed(b, capacity) && n <= capacity
    ensures multiset(ValuesBelow(b, capacity, key, n))[v] ==
            if Pair(key, v) in LiveBelow(b, capacity, n) then 1 else 0
  {
    hide Flag;
    if n > 0 {
      ValuesOnce(b, capacity, key, n - 1, v);
      LiveBelowStep(b, capacity, n - 1);
      if Readable(b, n - 1) {
        LiveBelowNew(b, capacity, n - 1);
        CountAppend(ValuesBelow(b, capacity, key, n - 1), b.slots[n - 1].value, v);
      }
      hide LiveBelow;
    }
  }

  lemma AllValuesOnce(b: BucketImage, capacity: nat, key: Key)
    requires WellFormed(b, capacity)
    ensures var all := ValuesBelow(b, capacity, key, capacity);
            && (forall v :: multiset(all)[v] == if Pair(key, v) in Live(b, capacity) then 1 else 0)
            && (all != [] <==> exists v :: Pair(key, v) in Live(b, capacity))
  {
    hide Flag;
    var all := ValuesBelow(b, capacity, key, capacity);
    forall v
      ensures multiset(all)[v] == if Pair(key, v) in Live(b, capacity) then 1 else 0
    {
      ValuesOnce(b, capacity, key, capacity, v);
    }
    if all != [] {
      assert all[0] in multiset(all);
      assert Pair(key, all[0]) in Live(b, capacity);
    }
  }

  /** `p` has been written to slot `i`, both of whose flags are now up; no other slot or flag differs. */
  ghost predicate IsStore(b: BucketImage, capacity: nat, i: nat, p: Pair, b': BucketImage)
    requires Sized(b, capacity) && i < capacity
  {
    && Sized(b', capacity)
    && b'.slots == b.slots[i := p]
    && (forall j :: 0 <= j < capacity ==> (Readable(b', j) <==> j == i || Readable(b, j)))
    && (forall j :: 0 <= j < capacity ==> (Occupied(b', j) <==> j == i || Occupied(b, j)))
  }

  /** The readable flag of slot `i` is down; no other slot or flag differs. */
  ghost predicate IsErase(b: BucketImage, capacity: nat, i: nat, b': BucketImage)
    requires Sized(b, capacity) && i < capacity
  {
    && Sized(b', capacity)
    && b'.slots == b.slots
    && (forall j :: 0 <= j < capacity ==> (Occupied(b', j) <==> Occupied(b, j)))
    && (forall j :: 0 <= j < capacity ==> (Readable(b', j) <==> j != i && Readable(b, j)))
  }

  /** `i` is the lowest slot that is not readable. */
  ghost predicate IsFirstFree(b: BucketImage, capacity: nat, i: nat)
    requires Sized(b, capacity)
  {
    i < capacity && !Readable(b, i) && forall j :: 0 <= j < i ==> Readable(b, j)
  }

  lemma StoreEffect(b: BucketImage, capacity: nat, i: nat, p: Pair, b': BucketImage)
    requires WellFormed(b, capacity) && IsFirstFree(b, capacity, i)
    requires p !in Live(b, capacity) && IsStore(b, capacity, i, p, b')
    ensures WellFormed(b', capacity) && Live(b', capacity) == Live(b, capacity) + {p}
  {
    hide Flag;
    forall x
      ensures x in Live(b', capacity) <==> x in Live(b, capacity) || x == p
    {
      if j :| 0 <= j < capacity && Readable(b, j) && b.slots[j] == x {
        assert Readable(b', j) && b'.slots[j] == x;
      }
      assert Readable(b', i) && b'.slots[i] == p;
    }
  }

  lemma EraseEffect(b: BucketImage, capacity: nat, i: nat, b': BucketImage)
    requires WellFormed(b, capacity) && i < capacity && Readable(b, i) && IsErase(b, capacity, i, b')
    ensures WellFormed(b', capacity) && Live(b', capacity) == Live(b, capacity) - {b.slots[i]}
  {
    hide Flag;
    forall x
      ensures x in Live(b', capacity) <==> x in Live(b, capacity) && x != b.slots[i]
    {
      if j :| 0 <= j < capacity && Readable(b, j) && b.slots[j] == x && j != i {
        assert Readable(b', j) && b'.slots[j] == x;
        assert b.slots[j] != b.slots[i];
      }
    }
  }

  /** Only the flags below the capacity matter. */
  lemma SamePairs(b: BucketImage, capacity: nat, b': BucketImage)
    requires WellFormed(b, capacity) && Sized(b', capacity) && b'.slots == b.slots
    requires forall j :: 0 <= j < capacity ==> (Readable(b', j) <==> Readable(b, j))
    requires forall j :: 0 <= j < capacity ==> (Occupied(b', j) <==> Occupied(b, j))
    ensures WellFormed(b', capacity) && Live(b', capacity) == Live(b, capacity)
  {
    hide Flag;
  }

  class BucketPage {
    const capacity: nat  // BUCKET_ARRAY_SIZE
    const occupied: array<bv8>
    const readable: array<bv8>
    const slots: array<Pair>  // array_

    ghost function Image(): BucketImage
      reads occupied, readable, slots
    {
      BucketImage(occupied[..], readable[..], slots[..])
    }

    ghost predicate Separate() {
      occupied != readable && slots as object != occupied && slots as object != readable
    }

    ghost predicate Valid()
      reads occupied, readable, slots
    {
      Separate() && WellFormed(Image(), capacity)
    }

    /** The pairs the page holds. */
    ghost function Pairs(): set<Pair>
      requires Valid()
      reads occupied, readable, slots
    {
      Live(Image(), capacity)
    }

    /** A typed page over the bytes of a frame. */
    constructor (image: BucketImage, size: nat)
      requires WellFormed(image, size)
      ensures Valid() && capacity == size && Image() == image
      ensures fresh(occupied) && fresh(readable) && fresh(slots)
    {
      capacity := size;
      occupied := new bv8[|image.occupied|](i requires 0 <= i < |image.occupied| => image.occupied[i]);
      readable := new bv8[|image.readable|](i requires 0 <= i < |image.readable| => image.readable[i]);
      slots := new Pair[|image.slots|](i requires 0 <= i < |image.slots| => image.slots[i]);
      new;
      assert Image() == image;
    }

    method IsOccupied(i: nat) returns (r: bool)
      requires Sized(Image(), capacity)
      ensures r <==> i < capacity && Occupied(Image(), i)
    {
      if i >= capacity {
        return false;
      }
      r := occupied[i / 8] & Mask(i % 8) != 0;
    }

    method IsReadable(i: nat) returns (r: bool)
      requires Sized(Image(), capacity)
      ensures r <==> (i < capacity ==> Readable(Image(), i))
    {
      if i >= capacity {
        return true;
      }
      r := readable[i / 8] & Mask(i % 8) != 0;
    }

    method SetOccupied(i: nat)
      requires Sized(Image(), capacity) && Separate()
      modifies occupied
      ensures Sized(Image(), capacity)
      ensures forall j :: 0 <= j < capacity ==> (Occupied(Image(), j) <==> j == i || old(Occupied(Image(), j)))
    {
      if i >= capacity {
        return;
      }
      ghost var before := Image();
      occupied[i / 8] := occupied[i / 8] | Mask(i % 8);
      assert Image().occupied == Set(before.occupied, i);
      forall j: nat | j < capacity
        ensures Occupied(Image(), j) <==> j == i || Occupied(before, j)
      {
        SetFlag(before.occupied, i, j);
      }
    }

    method SetReadable(i: nat)
      requires Sized(Image(), capacity) && Separate()
      modifies readable
      ensures Sized(Image(), capacity)
      ensures forall j :: 0 <= j < capacity ==> (Readable(Image(), j) <==> j == i || old(Readable(Image(), j)))
    {
      if i >= capacity {
        return;
      }
      ghost var before := Image();
      readable[i / 8] := readable[i / 8] | Mask(i % 8);
      assert Image().readable == Set(before.readable, i);
      forall j: nat | j < capacity
        ensures Readable(Image(), j) <==> j == i || Readable(before, j)
      {
        SetFlag(before.readable, i, j);
      }
    }

    /** Outside the readable slots the result is the default key, about which nothing is promised. */
    method KeyAt(i: nat) returns (key: Key)
      requires Sized(Image(), capacity) && i < capacity
      ensures Readable(Image(), i) ==> key == slots[i].key
    {
      var r := IsReadable(i);
      if r {
        return slots[i].key;
      }
      key := *;
    }

    method ValueAt(i: nat) returns (value: Value)
      requires Sized(Image(), capacity) && i < capacity
      ensures Readable(Image(), i) ==> value == slots[i].value
    {
      var r := IsReadable(i);
      if r {
        return slots[i].value;
      }
      value := *;
    }

    /**
     Leaves a tombstone. Outside the page `IsReadable` answers true, so an index that is too large flips a stray bit
     of the last byte, which no scan looks at.
     */
    method RemoveAt(i: nat)
      requires Valid() && i / 8 < readable.Length
      modifies readable
      ensures Valid()
      ensures i < capacity ==> IsErase(old(Image()), capacity, i, Image())
      ensures i >= capacity ==> Image() == old(Image()).(readable := Flip(old(Image()).readable, i))
      ensures Pairs() == if i < capacity && old(Readable(Image(), i)) then old(Pairs()) - {slots[i]} else old(Pairs())
    {
      var r := IsReadable(i);
      if !r {
        return;
      }
      ghost var before := Image();
      readable[i / 8] := readable[i / 8] ^ Mask(i % 8);
      assert Image().readable == Flip(before.readable, i);
      forall j: nat | j < capacity
        ensures Readable(Image(), j) <==> j != i && Readable(before, j)
      {
        FlipFlag(before.readable, i, j);
      }
      assert Image().slots == before.slots && Image().occupied == before.occupied;
      if i < capacity {
        EraseEffect(before, capacity, i, Image());
      } else {
        SamePairs(before, capacity, Image());
      }
    }

    method IsFull() returns (r: bool)
      requires Valid()
      ensures r <==> |Pairs()| == capacity
      ensures |Pairs()| <= capacity
      ensures r <==> forall i :: 0 <= i < capacity ==> Readable(Image(), i)
    {
      hide Flag;
      FullIffCapacity(Image(), capacity);
      for i := 0 to capacity
        invariant forall j :: 0 <= j < i ==> Readable(Image(), j)
      {
        var readableHere := IsReadable(i);
        if !readableHere {
          return false;
        }
      }
      return true;
    }

    method NumReadable() returns (count: nat)
      requires Valid()
      ensures count == |Pairs()|
    {
      hide Flag;
      count := 0;
      ghost var b, k: Key := Image(), *;
      for i := 0 to capacity
        invariant count == |LiveBelow(b, capacity, i)|
      {
        var occupiedHere := IsOccupied(i);
        if !occupiedHere {
          NothingBeyond(b, capacity, k, i, capacity);
          break;
        }
        var readableHere := IsReadable(i);
        if readableHere {
          LiveBelowNew(b, capacity, i);
          count := count + 1;
        } else {
          LiveBelowStep(b, capacity, i);
        }
      }
    }

    method IsEmpty() returns (r: bool)
      requires Valid()
      ensures r <==> Pairs() == {}
    {
      hide Flag;
      ghost var k: Key := *;
      for i := 0 to capacity
        invariant LiveBelow(Image(), capacity, i) == {}
      {
        var occupiedHere := IsOccupied(i);
        if !occupiedHere {
          NothingBeyond(Image(), capacity, k, i, capacity);
          break;
        }
        LiveBelowStep(Image(), capacity, i);
        var readableHere := IsReadable(i);
        if readableHere {
          assert slots[i] in Pairs();
          return false;
        }
      }
      return true;
    }

    /** The pass over the slots, up to the first that is not occupied. */
    method Collect(key: Key, result: seq<Value>) returns (found: bool, values: seq<Value>)
      requires Valid()
      ensures values == result + ValuesBelow(Image(), capacity, key, capacity)
      ensures found <==> ValuesBelow(Image(), capacity, key, capacity) != []
    {
      hide Flag, Live, LiveBelow;
      found, values := false, result;
      ghost var b := Image();
      ghost var seen: seq<Value> := [];
      for i := 0 to capacity
        invariant seen == ValuesBelow(b, capacity, key, i)
        invariant values == result + seen
        invariant found <==> seen != []
      {
        var readableHere := IsReadable(i);
        var keyHere := KeyAt(i);
        var occupiedHere := IsOccupied(i);
        if readableHere && key == keyHere {
          var value := ValueAt(i);
          values := values + [value];
          seen := seen + [value];
          found := true;
        } else if !occupiedHere {
          NothingBeyond(b, capacity, key, i, capacity);
          break;
        }
      }
    }

    /**
     Appends the values of `key`, each stored one exactly once, in the order of their slots, and reports whether there
     was any. `at` are the slots they come from.
     */
    method GetValue(key: Key, result: seq<Value>) returns (found: bool, values: seq<Value>, ghost at: seq<nat>)
      requires Valid()
      ensures result <= values && |values| == |result| + |at|
      ensures forall v :: multiset(values[|result|..])[v] == if Pair(key, v) in Pairs() then 1 else 0
      ensures found <==> exists v :: Pair(key, v) in Pairs()
      ensures forall m, n :: 0 <= m < n < |at| ==> at[m] < at[n]
      ensures forall m :: 0 <= m < |at| ==>
                at[m] < capacity && Readable(Image(), at[m]) &&
                Image().slots[at[m]] == Pair(key, values[|result| + m])
      ensures forall j: nat :: j < capacity && Readable(Image(), j) && Image().slots[j].key == key ==> j in at
    {
      hide Flag, Live, LiveBelow, ValuesBelow, SlotsBelow, Readable;
      found, values := Collect(key, result);
      at := SlotsBelow(Image(), capacity, key, capacity);
      Found(Image(), capacity, key, result, values);
    }

    /** The last three statements of an insertion. */
    method StoreAt(index: nat, p: Pair)
      requires Separate() && Sized(Image(), capacity) && index < capacity
      modifies occupied, readable, slots
      ensures IsStore(old(Image()), capacity, index, p, Image())
    {
      ghost var b := Image();
      slots[index] := p;
      ghost var written := Image();
      SetReadable(index);
      ghost var readied := Image();
      SetOccupied(index);
      assert written.slots == b.slots[index := p] == readied.slots == Image().slots;
      assert written.readable == b.readable && written.occupied == b.occupied;
      assert readied.occupied == written.occupied && Image().readable == readied.readable;
      forall j: nat | j < capacity
        ensures Readable(Image(), j) <==> j == index || Readable(b, j)
        ensures Occupied(Image(), j) <==> j == index || Occupied(b, j)
      {
        assert Readable(readied, j) <==> j == index || Readable(written, j);
        assert Readable(written, j) <==> Readable(b, j);
        assert Occupied(readied, j) <==> Occupied(b, j);
      }
    }

    /** The pass over the slots: is the pair there, and which is the lowest slot that is not readable? */
    method Scan(key: Key, value: Value) returns (present: bool, index: nat)
      requires Valid()
      ensures present <==> Pair(key, value) in Pairs()
      ensures !present ==> index <= capacity && forall j :: 0 <= j < index ==> Readable(Image(), j)
      ensures !present && index < capacity ==> !Readable(Image(), index)
    {
      hide Flag;
      ghost var b := Image();
      index := capacity;
      for i := 0 to capacity
        invariant index == capacity ==> forall j :: 0 <= j < i ==> Readable(b, j)
        invariant index != capacity ==> IsFirstFree(b, capacity, index)
        invariant Pair(key, value) !in LiveBelow(b, capacity, i)
      {
        var readableHere := IsReadable(i);
        LiveBelowStep(b, capacity, i);
        if readableHere {
          var keyHere := KeyAt(i);
          var valueHere := ValueAt(i);
          if key == keyHere && value == valueHere {
            assert b.slots[i] == Pair(key, value);
            return true, index;
          }
        } else if index == capacity {
          index := i;
        }
        var occupiedHere := IsOccupied(i);
        if !occupiedHere {
          NothingBeyond(b, capacity, key, i, capacity);
          break;
        }
      }
      present := false;
    }

    /**
     Takes the lowest slot that is not readable, unless the bucket is full or already holds the pair. `at` is that slot.
     */
    method Insert(key: Key, value: Value) returns (ok: bool, ghost at: nat)
      requires Valid()
      modifies occupied, readable, slots
      ensures Valid()
      ensures ok <==> |old(Pairs())| < capacity && Pair(key, value) !in old(Pairs())
      ensures Pairs() == if ok then old(Pairs()) + {Pair(key, value)} else old(Pairs())
      ensures !ok ==> Image() == old(Image())
      ensures ok ==>
                && at < capacity && !old(Readable(Image(), at))
                && (forall j :: 0 <= j < at ==> old(Readable(Image(), j)))
                && Image().slots == old(Image()).slots[at := Pair(key, value)]
                && (forall j :: 0 <= j < capacity ==> (Readable(Image(), j) <==> j == at || old(Readable(Image(), j))))
                && (forall j :: 0 <= j < capacity ==> (Occupied(Image(), j) <==> j == at || old(Occupied(Image(), j))))
    {
      hide Flag, Live;
      ghost var b := Image();
      at := capacity;
      var full := IsFull();
      if full {
        return false, at;
      }
      var present, index := Scan(key, value);
      if present || index == capacity {
        return false, at;
      }
      StoreAt(index, Pair(key, value));
      StoreEffect(b, capacity, index, Pair(key, value), Image());
      return true, index;
    }

    method Remove(key: Key, value: Value) returns (ok: bool)
      requires Valid()
      modifies readable
      ensures Valid()
      ensures ok <==> Pair(key, value) in old(Pairs())
      ensures Pairs() == old(Pairs()) - {Pair(key, value)}
      ensures !ok ==> Image() == old(Image())
      ensures Image().slots == old(Image()).slots
      ensures forall j :: 0 <= j < capacity ==>
                && (Occupied(Image(), j) <==> Occupied(old(Image()), j))
                && (Readable(Image(), j) <==> Readable(old(Image()), j) && slots[j] != Pair(key, value))
    {
      hide Flag;
      ghost var b := Image();
      var empty := IsEmpty();
      if empty {
        return false;
      }
      for i := 0 to capacity
        invariant Image() == b
        invariant Pair(key, value) !in LiveBelow(b, capacity, i)
      {
        var occupiedHere := IsOccupied(i);
        if !occupiedHere {
          NothingBeyond(b, capacity, key, i, capacity);
          break;
        }
        LiveBelowStep(b, capacity, i);
        var readableHere := IsReadable(i);
        if !readableHere {
          continue;
        }
        var keyHere := KeyAt(i);
        var valueHere := ValueAt(i);
        if key == keyHere && value == valueHere {
          assert slots[i] == Pair(key, value);
          RemoveAt(i);
          return true;
        }
      }
      return false;
    }
  }
}
