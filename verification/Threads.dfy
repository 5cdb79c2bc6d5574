/**
 Threads on the table over the pool. A section under the shared table latch is two steps: a thread enters, which pins
 the directory page and the bucket page of its key, and later it acts on the bucket and unpins both. Between the two,
 other threads enter and act. A section under the exclusive latch is one step, and waits until nobody is inside. Every
 schedule of these steps, carried out by the methods of the table, is a run of the interleaving model.
 */
module Threads {
  import opened Types
  import opened Bits
  import opened DirectoryModel
  import opened TableModel
  import opened PoolModel
  import opened BufferPool
  import opened SetSpec
  import opened Interleaving
  import opened HashTable
  import Client

  /** One entry of a schedule: the thread takes its next step, which is to call `op` if it is idle. */
  datatype Turn = Turn(thread: ThreadId, op: Op)

  /** A thread inside a shared section: the frame and the id of the bucket page that it holds. */
  datatype Visitor = Visitor(thread: ThreadId, page: Page<PageData>, id: PageId)

  datatype Config = Config(state: State, visitors: seq<Visitor>)

  ghost predicate Inside(visitors: seq<Visitor>, t: ThreadId) {
    exists k :: 0 <= k < |visitors| && visitors[k].thread == t
  }

  function Left(visitors: seq<Visitor>, k: nat): seq<Visitor>
    requires k < |visitors|
  {
    visitors[..k] + visitors[k + 1..]
  }

  /** Thread `t` has come in, and holds page `id`. */
  ghost predicate Joined(visitors: seq<Visitor>, t: ThreadId, id: PageId, visitors': seq<Visitor>) {
    var n := |visitors|;
    |visitors'| == n + 1 && visitors'[..n] == visitors && visitors'[n].thread == t && visitors'[n].id == id
  }

  ghost function HomeOf(t: Table, h: HashFunction, key: Key): PageId {
    if Shape(t.dir) then Home(t, h, key) else INVALID_PAGE_ID
  }

  // ---------- steps ----------

  /** The thread is about to enter a shared section. */
  ghost predicate Entering(c: Config, t: ThreadId) {
    PhaseOf(c.state, t).Called? && !Inside(c.visitors, t)
  }

  /** The thread waits for the exclusive latch. */
  ghost predicate Waiting(c: Config, t: ThreadId) {
    (PhaseOf(c.state, t).Splitting? || PhaseOf(c.state, t).Merging?) && c.visitors != []
  }

  /** The next step of a thread. Only entering and waiting are not steps of the interleaving model. */
  ghost predicate TurnStep(c: Config, h: HashFunction, capacity: nat, turn: Turn, c': Config) {
    var t, s, s' := turn.thread, c.state, c'.state;
    if Entering(c, t) then
      && s' == s
      && Joined(c.visitors, t, HomeOf(s.table, h, PhaseOf(s, t).op.Key()), c'.visitors)
    else if Waiting(c, t) then
      c' == c
    else if PhaseOf(s, t).Idle? then
      CallStep(s, t, turn.op, s') && c'.visitors == c.visitors
    else
      && ThreadStep(s, h, capacity, t, s')
      && if PhaseOf(s, t).Called? then
           exists k: nat :: k < |c.visitors| && c.visitors[k].thread == t && c'.visitors == Left(c.visitors, k)
         else
           c'.visitors == c.visitors
  }

  /** Whatever the schedule, each step keeps the invariant of the interleaving model. */
  lemma TurnKeepsInv(c: Config, h: HashFunction, capacity: nat, pairs: set<Pair>, turn: Turn, c': Config)
    requires Inv(c.state, h, capacity, pairs) && TurnStep(c, h, capacity, turn, c')
    ensures Inv(c'.state, h, capacity, pairs)
  {
    hide Inv, SectionStep;
    var s, s', t := c.state, c'.state, turn.thread;
    if s' != s {
      assert ThreadStep(s, h, capacity, t, s');
      NextKeepsInv(s, h, capacity, pairs, s');
    }
  }

  // ---------- the frames of the visitors ----------

  /** The pins of all visitors. */
  ghost function PinsOf(dirId: PageId, visitors: seq<Visitor>): multiset<PageId> {
    if visitors == [] then
      multiset{}
    else
      var n := |visitors| - 1;
      PinsOf(dirId, visitors[..n]) + multiset{dirId} + multiset{visitors[n].id}
  }

  ghost function Homes(visitors: seq<Visitor>): set<PageId> {
    set k | 0 <= k < |visitors| :: visitors[k].id
  }

  /** The frames it takes to let one more thread in, with `base` the pins of others. */
  ghost function FramesToEnter(base: multiset<PageId>, visitors: seq<Visitor>, home: PageId): nat {
    |PinnedIds(base)| + 1 + |Homes(visitors) + {home}|
  }

  lemma PinsEnter(dirId: PageId, visitors: seq<Visitor>, v: Visitor)
    ensures PinsOf(dirId, visitors + [v]) == PinsOf(dirId, visitors) + multiset{dirId} + multiset{v.id}
  {
    assert (visitors + [v])[..|visitors|] == visitors;
  }

  lemma {:induction false} PinsLeave(dirId: PageId, visitors: seq<Visitor>, k: nat)
    requires k < |visitors|
    ensures PinsOf(dirId, visitors) == PinsOf(dirId, Left(visitors, k)) + multiset{dirId} + multiset{visitors[k].id}
  {
    var n := |visitors| - 1;
    var front, last := visitors[..n], visitors[n];
    assert visitors == front + [last];
    if k == n {
      assert Left(visitors, k) == front;
    } else {
      PinsLeave(dirId, front, k);
      assert Left(visitors, k) == Left(front, k) + [last];
      PinsEnter(dirId, Left(front, k), last);
      hide PinsOf, Left;
      Reorder(PinsOf(dirId, Left(front, k)), multiset{dirId}, multiset{last.id}, multiset{front[k].id});
    }
  }

  lemma Reorder<T>(m: multiset<T>, d: multiset<T>, a: multiset<T>, b: multiset<T>)
    ensures m + d + b + d + a == m + d + a + d + b
  {
  }

  lemma {:induction false} PinnedByVisitors(dirId: PageId, visitors: seq<Visitor>, id: PageId)
    ensures id in PinsOf(dirId, visitors) <==> id in Homes(visitors) || (id == dirId && visitors != [])
  {
    if visitors != [] {
      var n := |visitors| - 1;
      PinnedByVisitors(dirId, visitors[..n], id);
      HomesStep(visitors);
    }
  }

  lemma HomesStep(visitors: seq<Visitor>)
    requires visitors != []
    ensures var n := |visitors| - 1; Homes(visitors) == Homes(visitors[..n]) + {visitors[n].id}
  {
    var n := |visitors| - 1;
    forall id
      ensures id in Homes(visitors) <==> id in Homes(visitors[..n]) + {visitors[n].id}
    {
      if k :| 0 <= k < n && visitors[k].id == id {
        assert visitors[..n][k].id == id;
      }
    }
  }

  lemma {:induction false} HomesSize(visitors: seq<Visitor>)
    ensures |Homes(visitors)| <= |visitors|
    ensures (forall i, j :: 0 <= i < j < |visitors| ==> visitors[i].id != visitors[j].id) ==>
              |Homes(visitors)| == |visitors|
  {
    if visitors == [] {
      assert Homes(visitors) == {};
    } else {
      var n := |visitors| - 1;
      HomesSize(visitors[..n]);
      HomesStep(visitors);
      OneMore(Homes(visitors[..n]), visitors[n].id);
    }
  }

  lemma DisjointSize<T>(a: set<T>, b: set<T>)
    requires a !! b
    ensures |a + b| == |a| + |b|
  {
  }

  lemma PinnedByAll(dirId: PageId, base: multiset<PageId>, visitors: seq<Visitor>, home: PageId)
    ensures PinnedIds(base + PinsOf(dirId, visitors)) + {dirId, home} ==
            PinnedIds(base) + ({dirId} + (Homes(visitors) + {home}))
  {
    hide PinsOf, Homes;
    forall id
      ensures id in PinnedIds(base + PinsOf(dirId, visitors)) + {dirId, home} <==>
              id in PinnedIds(base) + ({dirId} + (Homes(visitors) + {home}))
    {
      PinnedByVisitors(dirId, visitors, id);
    }
  }

  /** With the pins of others on other pages, a thread can be let in exactly when the frames suffice. */
  lemma RoomToEnter(dirId: PageId, base: multiset<PageId>, visitors: seq<Visitor>, home: PageId)
    requires dirId !in base && dirId != home && home !in base
    requires forall k :: 0 <= k < |visitors| ==> visitors[k].id !in base && visitors[k].id != dirId
    ensures |PinnedIds(base + PinsOf(dirId, visitors)) + {dirId, home}| == FramesToEnter(base, visitors, home)
  {
    var homes := Homes(visitors) + {home};
    PinnedByAll(dirId, base, visitors, home);
    hide PinsOf;
    DisjointSize({dirId}, homes);
    DisjointSize(PinnedIds(base), {dirId} + homes);
  }

  ghost predicate DistinctThreads(visitors: seq<Visitor>) {
    forall i, j :: 0 <= i < j < |visitors| ==> visitors[i].thread != visitors[j].thread
  }

  function ThreadsOf(visitors: seq<Visitor>): (r: seq<ThreadId>)
    ensures |r| == |visitors| && forall k :: 0 <= k < |visitors| ==> r[k] == visitors[k].thread
  {
    seq(|visitors|, k requires 0 <= k < |visitors| => visitors[k].thread)
  }

  /** Of `n` threads, at most `n` are inside; so `n + 1` frames let any of them in. */
  lemma EnoughFrames(base: multiset<PageId>, visitors: seq<Visitor>, home: PageId, t: ThreadId, n: nat)
    requires DistinctThreads(visitors) && !Inside(visitors, t) && t < n
    requires forall k :: 0 <= k < |visitors| ==> visitors[k].thread < n
    ensures FramesToEnter(base, visitors, home) <= |PinnedIds(base)| + n + 1
  {
    var threads := ThreadsOf(visitors) + [t];
    ElementsSize(threads);
    SubsetCardinality(Elements(threads), Range(n));
    HomesSize(visitors);
    OneMore(Homes(visitors), home);
  }

  /** With three frames to spare, it takes two threads inside to keep a third one out. */
  lemma ShortMeansCompany(base: multiset<PageId>, visitors: seq<Visitor>, home: PageId, frames: nat)
    requires |PinnedIds(base)| + 3 <= frames < FramesToEnter(base, visitors, home)
    ensures |visitors| >= 2
  {
    HomesSize(visitors);
    OneMore(Homes(visitors), home);
  }

  /** And fewer may not: when the buckets are all different, each thread inside takes one more frame. */
  lemma DistinctHomesTakeAll(base: multiset<PageId>, visitors: seq<Visitor>, home: PageId)
    requires forall i, j :: 0 <= i < j < |visitors| ==> visitors[i].id != visitors[j].id
    requires forall k :: 0 <= k < |visitors| ==> visitors[k].id != home
    ensures FramesToEnter(base, visitors, home) == |PinnedIds(base)| + |visitors| + 2
  {
    HomesSize(visitors);
    OneMore(Homes(visitors), home);
  }

  /** Three frames do not suffice for three threads: with two of them inside, on two buckets, a third one needs four. */
  lemma ThreeReadersNeedFour(a: Visitor, b: Visitor, home: PageId)
    requires a.id != b.id && a.id != home && b.id != home
    ensures FramesToEnter(multiset{}, [a, b], home) == 4
  {
    DistinctHomesTakeAll(multiset{}, [a, b], home);
    assert PinnedIds(multiset{}) == {};
  }

  // ---------- what holds between steps ----------

  /** A visitor is past its call, and still holds the page that its key is routed to. */
  ghost predicate AtItsHome(s: State, h: HashFunction, v: Visitor) {
    PhaseOf(s, v.thread).Called? && v.id == HomeOf(s.table, h, PhaseOf(s, v.thread).op.Key())
  }

  /**
   The pins on the pool are those of others, none of them on the table, and two for each visitor; and the others leave
   three frames.
   */
  ghost predicate Orderly(table: ExtendibleHashTable, base: multiset<PageId>, c: Config)
    reads table, table.pool, table.pool.replacer, table.pool.pages
  {
    && table.Valid() && c.state.table == table.Value()
    && table.pool.pins == base + PinsOf(table.directoryPageId, c.visitors)
    && |PinnedIds(base)| + 3 <= table.pool.poolSize
    && (forall id :: id in TablePages(table.pool.view, table.directoryPageId) ==> id !in base)
    && DistinctThreads(c.visitors)
    && (forall k :: 0 <= k < |c.visitors| ==>
          && AtItsHome(c.state, table.hashFn, c.visitors[k])
          && table.pool.Holds(c.visitors[k].page, c.visitors[k].id))
  }

  lemma TableIsConsistent(table: ExtendibleHashTable)
    requires table.Valid()
    ensures TableModel.Consistent(table.Value(), table.hashFn, table.capacity)
    ensures Interleaving.WellRouted(table.Value())
  {
  }

  /** What a visitor holds is a bucket page of the table. */
  lemma VisitorOnTable(table: ExtendibleHashTable, base: multiset<PageId>, c: Config, key: Key)
    requires Orderly(table, base, c)
    ensures var home := HomeOf(table.Value(), table.hashFn, key);
            && table.AtHome(key, home) && home != table.directoryPageId
            && home !in base && table.directoryPageId !in base
            && table.Pages(key) == {table.directoryPageId, home}
  {
    hide BufferPoolManagerInstance.Valid, Represents, TableOf, TablePages, TableModel.Pairs, PinnedIds;
    table.HomeIsAtHome(key);
  }

  /** A thread can enter exactly when there are frames for it and all visitors. */
  lemma RoomIffFrames(table: ExtendibleHashTable, base: multiset<PageId>, c: Config, key: Key)
    requires Orderly(table, base, c)
    ensures table.Room(table.Pages(key)) <==>
            FramesToEnter(base, c.visitors, HomeOf(table.Value(), table.hashFn, key)) <= table.pool.poolSize
  {
    hide ExtendibleHashTable.Valid, BufferPoolManagerInstance.Valid, TableOf, TablePages, PinnedIds, FramesToEnter,
      PinsOf, ExtendibleHashTable.AtHome;
    var home := HomeOf(table.Value(), table.hashFn, key);
    VisitorOnTable(table, base, c, key);
    forall k | 0 <= k < |c.visitors|
      ensures c.visitors[k].id !in base && c.visitors[k].id != table.directoryPageId
    {
      assert AtItsHome(c.state, table.hashFn, c.visitors[k]);
      VisitorOnTable(table, base, c, PhaseOf(c.state, c.visitors[k].thread).op.Key());
    }
    RoomToEnter(table.directoryPageId, base, c.visitors, home);
  }

  // ---------- entering ----------

  /** Its page is pinned by the visitor itself, so the frame keeps it. */
  lemma HeldByVisitor(dirId: PageId, base: multiset<PageId>, visitors: seq<Visitor>, v: Visitor)
    requires v in visitors
    ensures v.id in base + PinsOf(dirId, visitors)
  {
    var k :| 0 <= k < |visitors| && visitors[k] == v;
    PinnedByVisitors(dirId, visitors, visitors[k].id);
  }

  /** A thread enters. An assertion on a fetched page trips exactly when the frames do not suffice. */
  method EnterTurn(table: ExtendibleHashTable, op: Op, t: ThreadId, ghost base: multiset<PageId>, ghost c: Config,
                   visitors: seq<Visitor>)
    returns (trapped: bool, visitors': seq<Visitor>)
    requires Orderly(table, base, c) && c.visitors == visitors
    requires PhaseOf(c.state, t) == Called(op) && !Inside(visitors, t)
    modifies table.pool, table.pool.replacer, table.pool.pages
    ensures trapped <==>
              FramesToEnter(base, visitors, HomeOf(c.state.table, table.hashFn, op.Key())) > table.pool.poolSize
    ensures trapped <==>
              var home := HomeOf(c.state.table, table.hashFn, op.Key());
              |PinnedIds(old(table.pool.pins)) + {table.directoryPageId, home}| > table.pool.poolSize
    ensures !trapped ==>
              && table.pool.view == old(table.pool.view) && table.pool.debt == old(table.pool.debt)
              && Orderly(table, base, Config(c.state, visitors'))
              && Joined(visitors, t, HomeOf(c.state.table, table.hashFn, op.Key()), visitors')
  {
    hide ExtendibleHashTable.Valid, BufferPoolManagerInstance.Valid, TableOf, TablePages, PinnedIds, FramesToEnter,
      PinsOf, ExtendibleHashTable.Room, ExtendibleHashTable.Pages;
    RoomIffFrames(table, base, c, op.Key());
    VisitorOnTable(table, base, c, op.Key());
    var page: Page?<PageData>;
    var id;
    trapped, page, id := table.Enter(op.Key());
    visitors' := visitors;
    if !trapped {
      visitors' := visitors + [Visitor(t, page, id)];
      PinsEnter(table.directoryPageId, visitors, visitors'[|visitors|]);
      assert visitors'[..|visitors|] == visitors;
      forall k | 0 <= k < |visitors|
        ensures table.pool.Holds(visitors[k].page, visitors[k].id)
      {
        HeldByVisitor(table.directoryPageId, base, visitors, visitors[k]);
      }
    }
  }

  // ---------- acting ----------

  /** The visitors that stay are those with other threads, none of them twice. */
  lemma LeftVisitors(visitors: seq<Visitor>, k: nat)
    requires DistinctThreads(visitors) && k < |visitors|
    ensures DistinctThreads(Left(visitors, k))
    ensures forall j :: 0 <= j < |Left(visitors, k)| ==>
              Left(visitors, k)[j] in visitors && Left(visitors, k)[j].thread != visitors[k].thread
  {
    var rest := Left(visitors, k);
    forall j | 0 <= j < |rest|
      ensures rest[j] == visitors[if j < k then j else j + 1]
    {
    }
  }

  lemma StillAtHome(s: State, h: HashFunction, v: Visitor, t: ThreadId, s': State, phase: Phase)
    requires AtItsHome(s, h, v) && v.thread != t
    requires s'.table.dir == s.table.dir && s'.threads == s.threads[t := phase]
    ensures AtItsHome(s', h, v)
  {
  }

  /** When a visitor has acted and left, the others are still where they were. */
  lemma OthersStay(table: ExtendibleHashTable, base: multiset<PageId>, c: Config, k: nat, s': State, phase: Phase)
    requires k < |c.visitors| && DistinctThreads(c.visitors)
    requires forall i :: 0 <= i < |c.visitors| ==> AtItsHome(c.state, table.hashFn, c.visitors[i])
    requires table.Valid() && s'.table == table.Value() && s'.table.dir == c.state.table.dir
    requires s'.threads == c.state.threads[c.visitors[k].thread := phase]
    requires table.pool.pins == base + PinsOf(table.directoryPageId, Left(c.visitors, k))
    requires |PinnedIds(base)| + 3 <= table.pool.poolSize
    requires forall id :: id in TablePages(table.pool.view, table.directoryPageId) ==> id !in base
    requires forall v :: v in Left(c.visitors, k) ==> table.pool.Holds(v.page, v.id)
    ensures Orderly(table, base, Config(s', Left(c.visitors, k)))
  {
    hide ExtendibleHashTable.Valid, BufferPoolManagerInstance.Valid, TableOf, TablePages, PinnedIds, AtItsHome, PinsOf,
      BufferPoolManagerInstance.Holds;
    var rest := Left(c.visitors, k);
    LeftVisitors(c.visitors, k);
    hide Left, DistinctThreads;
    forall j | 0 <= j < |rest|
      ensures AtItsHome(s', table.hashFn, rest[j])
    {
      var i :| 0 <= i < |c.visitors| && c.visitors[i] == rest[j];
      StillAtHome(c.state, table.hashFn, rest[j], c.visitors[k].thread, s', phase);
    }
  }

  /** What a lookup finds, as an answer. */
  method Collect(table: ExtendibleHashTable, key: Key, v: Visitor, ghost pins: multiset<PageId>)
    returns (answer: Answer)
    requires table.Valid() && table.AtHome(key, v.id) && table.pool.Holds(v.page, v.id)
    requires table.pool.pins == pins + multiset{table.directoryPageId} + multiset{v.id}
    modifies table.pool, table.pool.replacer, table.pool.pages
    ensures table.Valid() && table.pool.view == old(table.pool.view)
    ensures table.pool.pins == pins && table.pool.debt == old(table.pool.debt) && table.pool.PinnedStay()
    ensures answer == Values(ValuesOf(Pairs(table.Value()), key))
  {
    hide ExtendibleHashTable.Valid, BufferPoolManagerInstance.Valid, TablePages, TableOf, TableModel.Pairs, PinnedIds,
      ExtendibleHashTable.AtHome, ValuesOf;
    var found, values, _ := table.GetInside(key, [], v.page, v.id, pins);
    assert values[0..] == values;
    ValuesListed(values, Pairs(table.Value()), key);
    answer := Values(set x | x in values);
  }

  /** The rest of a lookup. */
  method GetTurn(table: ExtendibleHashTable, key: Key, k: nat, ghost base: multiset<PageId>, ghost c: Config,
                 visitors: seq<Visitor>)
    returns (phase: Phase, ghost s': State)
    requires Orderly(table, base, c) && c.visitors == visitors && k < |visitors|
    requires PhaseOf(c.state, visitors[k].thread) == Called(GetOp(key))
    modifies table.pool, table.pool.replacer, table.pool.pages
    ensures Orderly(table, base, Config(s', Left(visitors, k)))
    ensures s'.threads == c.state.threads[visitors[k].thread := phase]
    ensures table.pool.debt == old(table.pool.debt)
    ensures Untouched(old(table.pool.view), table.pool.view, table.directoryPageId)
    ensures ThreadStep(c.state, table.hashFn, table.capacity, visitors[k].thread, s')
  {
    hide ExtendibleHashTable.Valid, BufferPoolManagerInstance.Valid, TablePages, TableOf, TableModel.Pairs, PinnedIds,
      Untouched, Represents, TableModel.Consistent, PinsOf, ExtendibleHashTable.AtHome, ValuesOf;
    var v := visitors[k];
    ghost var t, s := v.thread, c.state;
    TableIsConsistent(table);
    VisitorOnTable(table, base, c, key);
    PinsLeave(table.directoryPageId, visitors, k);
    assert AtItsHome(s, table.hashFn, v);
    GetSectionCorrect(s.table, table.hashFn, table.capacity, key);
    UntouchedSelf(table.pool.view, table.directoryPageId);
    var answer := Collect(table, key, v, base + PinsOf(table.directoryPageId, Left(visitors, k)));
    assert answer == Values(ValuesOf(Interleaving.HomeBucket(s.table, table.hashFn, key), key));
    phase := Finished(GetOp(key), answer);
    s' := Moved(s, t, phase, table.Value(), [Commit(t, GetOp(key), answer)]);
    assert SectionStep(s, table.hashFn, table.capacity, t, s');
    forall u | u in Left(visitors, k)
      ensures table.pool.Holds(u.page, u.id)
    {
      LeftVisitors(visitors, k);
      HeldByVisitor(table.directoryPageId, base, Left(visitors, k), u);
      HeldByVisitor(table.directoryPageId, base, visitors, u);
    }
    OthersStay(table, base, c, k, s', phase);
  }

  /** The rest of the first section of an insertion. */
  method InsertTurn(table: ExtendibleHashTable, kv: Pair, k: nat, ghost base: multiset<PageId>, ghost c: Config,
                    visitors: seq<Visitor>)
    returns (phase: Phase, ghost s': State)
    requires Orderly(table, base, c) && c.visitors == visitors && k < |visitors|
    requires PhaseOf(c.state, visitors[k].thread) == Called(InsertOp(kv))
    modifies table.pool, table.pool.replacer, table.pool.pages
    ensures Orderly(table, base, Config(s', Left(visitors, k)))
    ensures s'.threads == c.state.threads[visitors[k].thread := phase]
    ensures table.pool.debt == old(table.pool.debt)
    ensures Untouched(old(table.pool.view), table.pool.view, table.directoryPageId)
    ensures ThreadStep(c.state, table.hashFn, table.capacity, visitors[k].thread, s')
  {
    hide ExtendibleHashTable.Valid, BufferPoolManagerInstance.Valid, TablePages, TableOf, TableModel.Pairs, PinnedIds,
      Untouched, Represents, TableModel.Consistent, PinsOf, ExtendibleHashTable.AtHome;
    var v := visitors[k];
    ghost var t, s := v.thread, c.state;
    TableIsConsistent(table);
    VisitorOnTable(table, base, c, kv.key);
    PinsLeave(table.directoryPageId, visitors, k);
    assert AtItsHome(s, table.hashFn, v);
    var done, res :=
      table.InsertInside(kv.key, kv.value, v.page, v.id, base + PinsOf(table.directoryPageId, Left(visitors, k)));
    phase := if done then Finished(InsertOp(kv), Flag(res)) else Splitting(InsertOp(kv));
    s' := AfterInsertion(s, t, kv, table.Value(), done, res, Splitting(InsertOp(kv)));
    assert SectionStep(s, table.hashFn, table.capacity, t, s');
    forall u | u in Left(visitors, k)
      ensures table.pool.Holds(u.page, u.id)
    {
      LeftVisitors(visitors, k);
      HeldByVisitor(table.directoryPageId, base, Left(visitors, k), u);
      HeldByVisitor(table.directoryPageId, base, visitors, u);
    }
    OthersStay(table, base, c, k, s', phase);
  }

  /** The rest of the first section of a removal. */
  method RemoveTurn(table: ExtendibleHashTable, kv: Pair, k: nat, ghost base: multiset<PageId>, ghost c: Config,
                    visitors: seq<Visitor>)
    returns (phase: Phase, ghost s': State)
    requires Orderly(table, base, c) && c.visitors == visitors && k < |visitors|
    requires PhaseOf(c.state, visitors[k].thread) == Called(RemoveOp(kv))
    modifies table.pool, table.pool.replacer, table.pool.pages
    ensures Orderly(table, base, Config(s', Left(visitors, k)))
    ensures s'.threads == c.state.threads[visitors[k].thread := phase]
    ensures table.pool.debt == old(table.pool.debt)
    ensures Untouched(old(table.pool.view), table.pool.view, table.directoryPageId)
    ensures ThreadStep(c.state, table.hashFn, table.capacity, visitors[k].thread, s')
  {
    hide ExtendibleHashTable.Valid, BufferPoolManagerInstance.Valid, TablePages, TableOf, TableModel.Pairs, PinnedIds,
      Untouched, Represents, TableModel.Consistent, PinsOf, ExtendibleHashTable.AtHome;
    var v := visitors[k];
    ghost var t, s := v.thread, c.state;
    TableIsConsistent(table);
    VisitorOnTable(table, base, c, kv.key);
    PinsLeave(table.directoryPageId, visitors, k);
    assert AtItsHome(s, table.hashFn, v);
    var res :=
      table.RemoveInside(kv.key, kv.value, v.page, v.id, base + PinsOf(table.directoryPageId, Left(visitors, k)));
    phase := Merging(RemoveOp(kv), Flag(res));
    s' := Moved(s, t, phase, table.Value(), [Commit(t, RemoveOp(kv), Flag(res))]);
    assert SectionStep(s, table.hashFn, table.capacity, t, s');
    forall u | u in Left(visitors, k)
      ensures table.pool.Holds(u.page, u.id)
    {
      LeftVisitors(visitors, k);
      HeldByVisitor(table.directoryPageId, base, Left(visitors, k), u);
      HeldByVisitor(table.directoryPageId, base, visitors, u);
    }
    OthersStay(table, base, c, k, s', phase);
  }

  // ---------- the exclusive sections ----------

  /** With nobody inside, the pins on the pool are those of others. */
  lemma NobodyInside(table: ExtendibleHashTable, base: multiset<PageId>, c: Config)
    requires Orderly(table, base, c) && c.visitors == []
    ensures table.pool.pins == base && table.Frames(3) && table.Unheld()
  {
    hide ExtendibleHashTable.Valid, BufferPoolManagerInstance.Valid, PinnedIds, TablePages;
    assert base + PinsOf(table.directoryPageId, []) == base;
  }

  /** The section of `SplitInsert`. */
  method SplitTurn(table: ExtendibleHashTable, kv: Pair, t: ThreadId, ghost base: multiset<PageId>, ghost c: Config)
    returns (phase: Phase, ghost s': State)
    requires Orderly(table, base, c) && c.visitors == [] && PhaseOf(c.state, t) == Splitting(InsertOp(kv))
    modifies table.pool, table.pool.replacer, table.pool.pages
    ensures Orderly(table, base, Config(s', [])) && s'.threads == c.state.threads[t := phase]
    ensures table.pool.debt == old(table.pool.debt)
    ensures Untouched(old(table.pool.view), table.pool.view, table.directoryPageId)
    ensures ThreadStep(c.state, table.hashFn, table.capacity, t, s')
  {
    hide ExtendibleHashTable.Valid, BufferPoolManagerInstance.Valid, TablePages, TableOf, TableModel.Pairs, PinnedIds,
      Untouched, Represents, TableModel.Consistent, SplitSection, PinsOf;
    ghost var s := c.state;
    NobodyInside(table, base, c);
    TableIsConsistent(table);
    Client.RoomForKey(table, kv.key);
    table.UnheldRoom(kv.key);
    var done, res, trapped;
    ghost var newId;
    done, res, trapped, newId := table.SplitInsertLatched(kv.key, kv.value);
    assert !trapped;
    phase := if done then Finished(InsertOp(kv), Flag(res)) else Called(InsertOp(kv));
    s' := AfterInsertion(s, t, kv, table.Value(), done, res, Called(InsertOp(kv)));
    assert SectionStep(s, table.hashFn, table.capacity, t, s');
  }

  /** The section of `Merge`. */
  method MergeTurn(table: ExtendibleHashTable, op: Op, answer: Answer, t: ThreadId, ghost base: multiset<PageId>,
                   ghost c: Config)
    returns (phase: Phase, ghost s': State)
    requires Orderly(table, base, c) && c.visitors == [] && PhaseOf(c.state, t) == Merging(op, answer) && op.RemoveOp?
    modifies table.pool, table.pool.replacer, table.pool.pages
    ensures Orderly(table, base, Config(s', [])) && s'.threads == c.state.threads[t := phase]
    ensures table.pool.debt == old(table.pool.debt)
    ensures Untouched(old(table.pool.view), table.pool.view, table.directoryPageId)
    ensures ThreadStep(c.state, table.hashFn, table.capacity, t, s')
  {
    hide ExtendibleHashTable.Valid, BufferPoolManagerInstance.Valid, TablePages, TableOf, TableModel.Pairs, PinnedIds,
      Untouched, Represents, TableModel.Consistent, MergeSection, PinsOf;
    ghost var s := c.state;
    NobodyInside(table, base, c);
    TableIsConsistent(table);
    Client.RoomForKey(table, op.pair.key);
    table.Merge(op.pair.key);
    phase := Finished(op, answer);
    s' := Moved(s, t, phase, table.Value(), []);
    assert SectionStep(s, table.hashFn, table.capacity, t, s');
  }

  // ---------- a whole schedule ----------

  method Find(visitors: seq<Visitor>, t: ThreadId) returns (k: nat)
    ensures k <= |visitors| && (k < |visitors| <==> Inside(visitors, t))
    ensures k < |visitors| ==> visitors[k].thread == t
  {
    for i := 0 to |visitors|
      invariant forall j :: 0 <= j < i ==> visitors[j].thread != t
    {
      if visitors[i].thread == t {
        return i;
      }
    }
    return |visitors|;
  }

  /** A visitor acts, according to its operation, and leaves. */
  method Act(table: ExtendibleHashTable, op: Op, k: nat, ghost base: multiset<PageId>, ghost c: Config,
             visitors: seq<Visitor>)
    returns (phase: Phase, ghost s': State)
    requires Orderly(table, base, c) && c.visitors == visitors && k < |visitors|
    requires PhaseOf(c.state, visitors[k].thread) == Called(op)
    modifies table.pool, table.pool.replacer, table.pool.pages
    ensures Orderly(table, base, Config(s', Left(visitors, k)))
    ensures s'.threads == c.state.threads[visitors[k].thread := phase]
    ensures table.pool.debt == old(table.pool.debt)
    ensures Untouched(old(table.pool.view), table.pool.view, table.directoryPageId)
    ensures ThreadStep(c.state, table.hashFn, table.capacity, visitors[k].thread, s')
  {
    hide Orderly, Untouched, ThreadStep;
    match op
    case GetOp(key) =>
      phase, s' := GetTurn(table, key, k, base, c, visitors);
    case InsertOp(kv) =>
      phase, s' := InsertTurn(table, kv, k, base, c, visitors);
    case RemoveOp(kv) =>
      phase, s' := RemoveTurn(table, kv, k, base, c, visitors);
  }

  /** The frames do not suffice for the next step of the thread. */
  ghost predicate Short(table: ExtendibleHashTable, base: multiset<PageId>, c: Config, t: ThreadId) {
    && Entering(c, t)
    && FramesToEnter(base, c.visitors, HomeOf(c.state.table, table.hashFn, PhaseOf(c.state, t).op.Key()))
       > table.pool.poolSize
  }

  /**
   On different buckets, with `m` threads inside, one more finds no frames exactly when there are fewer than `m + 2`.
   */
  lemma ShortOnDistinctBuckets(table: ExtendibleHashTable, base: multiset<PageId>, c: Config, t: ThreadId)
    requires Orderly(table, base, c) && Entering(c, t)
    requires forall i, j :: 0 <= i < j < |c.visitors| ==> c.visitors[i].id != c.visitors[j].id
    requires forall k :: 0 <= k < |c.visitors| ==>
               c.visitors[k].id != HomeOf(c.state.table, table.hashFn, PhaseOf(c.state, t).op.Key())
    ensures Short(table, base, c, t) <==> table.pool.poolSize < |PinnedIds(base)| + |c.visitors| + 2
  {
    hide Orderly, PinnedIds, FramesToEnter, HomeOf;
    DistinctHomesTakeAll(base, c.visitors, HomeOf(c.state.table, table.hashFn, PhaseOf(c.state, t).op.Key()));
  }

  /** A step outside of the table: a call, or a return. */
  method OutsideTurn(table: ExtendibleHashTable, turn: Turn, phase: Phase, ghost base: multiset<PageId>,
                     ghost c: Config)
    returns (phase': Phase, ghost s': State)
    requires Orderly(table, base, c) && phase == PhaseOf(c.state, turn.thread) && (phase.Idle? || phase.Finished?)
    ensures Orderly(table, base, Config(s', c.visitors)) && s'.threads == c.state.threads[turn.thread := phase']
    ensures ThreadStep(c.state, table.hashFn, table.capacity, turn.thread, s')
    ensures phase.Idle? ==> CallStep(c.state, turn.thread, turn.op, s')
  {
    hide ExtendibleHashTable.Valid, TableOf, TablePages, PinnedIds, PinsOf, SectionStep;
    ghost var s, t := c.state, turn.thread;
    if phase.Idle? {
      phase' := Called(turn.op);
      s' := Moved(s, t, phase', s.table, [Call(t, turn.op)]);
      assert CallStep(s, t, turn.op, s');
    } else {
      phase' := Idle;
      s' := Moved(s, t, phase', s.table, [Return(t, phase.op, phase.answer)]);
      assert ReturnStep(s, t, s');
    }
    forall k | 0 <= k < |c.visitors|
      ensures AtItsHome(s', table.hashFn, c.visitors[k])
    {
      assert AtItsHome(s, table.hashFn, c.visitors[k]);
    }
  }

  /**
   The next step of a thread, whatever it is. Exactly when the thread is about to enter and the frames do not suffice,
   an assertion trips instead.
   */
  method TakeTurn(table: ExtendibleHashTable, turn: Turn, threads: map<ThreadId, Phase>, visitors: seq<Visitor>,
                  ghost base: multiset<PageId>, ghost c: Config, ghost pairs: set<Pair>)
    returns (trapped: bool, threads': map<ThreadId, Phase>, visitors': seq<Visitor>, ghost c': Config)
    requires Orderly(table, base, c) && c.visitors == visitors && c.state.threads == threads
    requires Inv(c.state, table.hashFn, table.capacity, pairs)
    modifies table.pool, table.pool.replacer, table.pool.pages
    ensures trapped <==> Short(table, base, c, turn.thread)
    ensures !trapped ==>
              && TurnStep(c, table.hashFn, table.capacity, turn, c')
              && Orderly(table, base, c') && c'.visitors == visitors' && c'.state.threads == threads'
              && table.pool.debt == old(table.pool.debt)
              && Untouched(old(table.pool.view), table.pool.view, table.directoryPageId)
    ensures visitors == [] && (PhaseOf(c.state, turn.thread).Splitting? || PhaseOf(c.state, turn.thread).Merging?) ==>
              !trapped && ThreadStep(c.state, table.hashFn, table.capacity, turn.thread, c'.state)
  {
    hide Orderly, FramesToEnter, Untouched, ThreadStep, CallStep, HomeOf, Consistent, TableModel.Pairs, Legal,
      Committed;
    var t := turn.thread;
    var phase := if t in threads then threads[t] else Idle;
    ghost var s' := c.state;
    assert StageMatches(phase, StageOf(c.state.history, t));
    UntouchedSelf(table.pool.view, table.directoryPageId);
    trapped, threads', visitors' := false, threads, visitors;
    match phase {
      case Called(op) =>
        var k := Find(visitors, t);
        if k < |visitors| {
          phase, s' := Act(table, op, k, base, c, visitors);
          threads', visitors' := threads[t := phase], Left(visitors, k);
        } else {
          trapped, visitors' := EnterTurn(table, op, t, base, c, visitors);
        }
      case Splitting(op) =>
        if visitors == [] {
          phase, s' := SplitTurn(table, op.pair, t, base, c);
          threads' := threads[t := phase];
        }
      case Merging(op, answer) =>
        if visitors == [] {
          phase, s' := MergeTurn(table, op, answer, t, base, c);
          threads' := threads[t := phase];
        }
      case _ =>
        phase, s' := OutsideTurn(table, turn, phase, base, c);
        threads' := threads[t := phase];
    }
    c' := Config(s', visitors');
  }

  /** The steps that a schedule makes of a configuration, as far as it has been followed. */
  ghost predicate Follows(configs: seq<Config>, h: HashFunction, capacity: nat, schedule: seq<Turn>) {
    && 0 < |configs| <= |schedule| + 1
    && forall i :: 0 <= i < |configs| - 1 ==> TurnStep(configs[i], h, capacity, schedule[i], configs[i + 1])
  }

  // ---------- one thread alone ----------

  /** Nobody but thread `t` is inside. */
  ghost predicate Alone(c: Config, t: ThreadId) {
    c.visitors == [] || (|c.visitors| == 1 && c.visitors[0].thread == t && PhaseOf(c.state, t).Called?)
  }

  /** How often the bucket of the key can still be split. */
  ghost function BitsLeft(t: Table, h: HashFunction, key: Key): nat {
    if Shape(t.dir) && HomeDepth(t, h, key) <= MAX_DEPTH then MAX_DEPTH - HomeDepth(t, h, key) else 0
  }

  /** At most this many turns are left of the call of a thread, once it has entered the section it is about to. */
  ghost function StepsLeft(s: State, h: HashFunction, t: ThreadId): nat {
    match PhaseOf(s, t)
    case Idle => 0
    case Called(GetOp(_)) => 2
    case Called(RemoveOp(_)) => 3
    case Called(InsertOp(kv)) => 3 + 3 * BitsLeft(s.table, h, kv.key)
    case Splitting(op) => 2 + 3 * BitsLeft(s.table, h, op.Key())
    case Merging(_, _) => 2
    case Finished(_, _) => 1
  }

  ghost function TurnsLeft(c: Config, h: HashFunction, t: ThreadId): nat {
    StepsLeft(c.state, h, t) + if Entering(c, t) then 1 else 0
  }

  /** The events still to come of the call of a thread, if nobody comes in between. */
  ghost function ToCome(s: State, h: HashFunction, capacity: nat, t: ThreadId): seq<Event> {
    match PhaseOf(s, t)
    case Idle => []
    case Called(op) =>
      var answer := AnswerTo(Pairs(s.table), h, capacity, op);
      [Commit(t, op, answer), Return(t, op, answer)]
    case Splitting(op) =>
      var answer := AnswerTo(Pairs(s.table), h, capacity, op);
      [Commit(t, op, answer), Return(t, op, answer)]
    case Merging(op, answer) => [Return(t, op, answer)]
    case Finished(op, answer) => [Return(t, op, answer)]
  }

  /** And the stored set that it will leave. */
  ghost function SetToCome(s: State, h: HashFunction, capacity: nat, t: ThreadId): set<Pair> {
    match PhaseOf(s, t)
    case Called(op) => Effect(Pairs(s.table), h, capacity, op)
    case Splitting(op) => Effect(Pairs(s.table), h, capacity, op)
    case _ => Pairs(s.table)
  }

  /** A section of an insertion, which ends the call or goes on. */
  lemma InsertionAdvances(s: State, h: HashFunction, capacity: nat, t: ThreadId, kv: Pair, table: Table, done: bool,
                          res: bool, next: Phase)
    requires PhaseOf(s, t) in {Called(InsertOp(kv)), Splitting(InsertOp(kv))}
    requires next in {Called(InsertOp(kv)), Splitting(InsertOp(kv))}
    requires done ==> (res <==> Insertable(Pairs(s.table), h, capacity, kv))
    requires Pairs(table) == if done && res then Pairs(s.table) + {kv} else Pairs(s.table)
    ensures var s' := AfterInsertion(s, t, kv, table, done, res, next);
            && s'.history + ToCome(s', h, capacity, t) == s.history + ToCome(s, h, capacity, t)
            && SetToCome(s', h, capacity, t) == SetToCome(s, h, capacity, t)
  {
    hide Insertable, TableModel.Pairs;
  }

  /**
   One section takes a call on, whatever it is, and an entry more pays for the next section if that is shared. What the
   call is to record and to leave behind does not change.
   */
  lemma SectionAdvances(s: State, h: HashFunction, capacity: nat, t: ThreadId, s': State)
    requires Consistent(s.table, h, capacity) && WellRouted(s.table) && SectionStep(s, h, capacity, t, s')
    ensures StepsLeft(s', h, t) + (if PhaseOf(s', t).Called? then 1 else 0) < StepsLeft(s, h, t)
    ensures s'.history + ToCome(s', h, capacity, t) == s.history + ToCome(s, h, capacity, t)
    ensures SetToCome(s', h, capacity, t) == SetToCome(s, h, capacity, t)
  {
    hide Insertable, InsertSection, SplitSection, RemoveSection, MergeSection, TableModel.Pairs, Low, Consistent,
      Minimal;
    match PhaseOf(s, t)
    case Called(GetOp(key)) =>
      GetSectionCorrect(s.table, h, capacity, key);
    case Called(InsertOp(kv)) =>
      var done, res :| InsertSection(s.table, h, capacity, kv, s'.table, done, res) &&
                       s' == AfterInsertion(s, t, kv, s'.table, done, res, Splitting(InsertOp(kv)));
      InsertSectionCorrect(s.table, h, capacity, kv, s'.table, done, res);
      InsertionAdvances(s, h, capacity, t, kv, s'.table, done, res, Splitting(InsertOp(kv)));
    case Splitting(InsertOp(kv)) =>
      var newId, done, res :| SplitSection(s.table, h, capacity, kv, newId, s'.table, done, res) &&
                              s' == AfterInsertion(s, t, kv, s'.table, done, res, Called(InsertOp(kv)));
      SplitSectionCorrect(s.table, h, capacity, kv, newId, s'.table, done, res);
      InsertionAdvances(s, h, capacity, t, kv, s'.table, done, res, Called(InsertOp(kv)));
    case Called(RemoveOp(kv)) =>
      var res :| RemoveSection(s.table, h, kv, s'.table, res) &&
        s' == Moved(s, t, Merging(RemoveOp(kv), Flag(res)), s'.table, [Commit(t, RemoveOp(kv), Flag(res))]);
      RemoveSectionCorrect(s.table, h, capacity, kv, s'.table, res);
    case Merging(op, answer) =>
      MergeSectionCorrect(s.table, h, capacity, op.pair.key, s'.table);
    case _ =>
  }

  /** A turn of a thread that is alone takes its call on. */
  lemma TurnAdvances(c: Config, h: HashFunction, capacity: nat, pairs: set<Pair>, turn: Turn, c': Config)
    requires Inv(c.state, h, capacity, pairs) && TurnStep(c, h, capacity, turn, c')
    requires Alone(c, turn.thread) && !PhaseOf(c.state, turn.thread).Idle?
    ensures Alone(c', turn.thread) && TurnsLeft(c', h, turn.thread) < TurnsLeft(c, h, turn.thread)
    ensures c'.state.history + ToCome(c'.state, h, capacity, turn.thread) ==
            c.state.history + ToCome(c.state, h, capacity, turn.thread)
    ensures SetToCome(c'.state, h, capacity, turn.thread) == SetToCome(c.state, h, capacity, turn.thread)
  {
    hide SectionStep, Consistent, TableModel.Pairs, Legal, Committed;
    var s, s', t := c.state, c'.state, turn.thread;
    assert StageMatches(PhaseOf(s, t), StageOf(s.history, t));
    if WellRouted(s.table) && SectionStep(s, h, capacity, t, s') {
      SectionAdvances(s, h, capacity, t, s');
    }
  }

  /** Turns enough of a thread that is alone bring its call to its return. */
  lemma {:induction false} AloneReturns(configs: seq<Config>, h: HashFunction, capacity: nat, schedule: seq<Turn>,
                                        pairs: set<Pair>, i: nat, t: ThreadId) returns (k: nat)
    requires Follows(configs, h, capacity, schedule) && i < |configs| && Inv(configs[i].state, h, capacity, pairs)
    requires Alone(configs[i], t) && i + TurnsLeft(configs[i], h, t) < |configs|
    requires forall j :: i <= j < i + TurnsLeft(configs[i], h, t) ==> schedule[j].thread == t
    ensures i <= k <= i + TurnsLeft(configs[i], h, t)
    ensures PhaseOf(configs[k].state, t).Idle? && configs[k].visitors == []
    ensures configs[k].state.history == configs[i].state.history + ToCome(configs[i].state, h, capacity, t)
    ensures Pairs(configs[k].state.table) == SetToCome(configs[i].state, h, capacity, t)
    decreases TurnsLeft(configs[i], h, t)
  {
    hide Inv, TurnStep, Consistent, TableModel.Pairs, BitsLeft, Entering;
    if PhaseOf(configs[i].state, t).Idle? {
      k := i;
    } else {
      TurnAdvances(configs[i], h, capacity, pairs, schedule[i], configs[i + 1]);
      TurnKeepsInv(configs[i], h, capacity, pairs, schedule[i], configs[i + 1]);
      k := AloneReturns(configs, h, capacity, schedule, pairs, i + 1, t);
    }
  }

  /**
   Progress of a call that has yet to commit, be it before its first section or before a split, with nobody inside: at
   most three turns for each bit that its bucket does not use yet, and four more, bring it to its return. It commits on
   the way, with the answer of the set specification.
   */
  lemma PendingReturns(configs: seq<Config>, h: HashFunction, capacity: nat, schedule: seq<Turn>, pairs: set<Pair>,
                       i: nat, t: ThreadId, op: Op) returns (k: nat)
    requires Follows(configs, h, capacity, schedule) && i < |configs| && Inv(configs[i].state, h, capacity, pairs)
    requires PhaseOf(configs[i].state, t) in {Called(op), Splitting(op)} && configs[i].visitors == []
    requires var n := 3 * (MAX_DEPTH - HomeDepth(configs[i].state.table, h, op.Key())) + 4;
             i + n < |configs| && forall j :: i <= j < i + n ==> schedule[j].thread == t
    ensures i < k <= i + 3 * (MAX_DEPTH - HomeDepth(configs[i].state.table, h, op.Key())) + 4
    ensures PhaseOf(configs[k].state, t).Idle? && configs[k].visitors == []
    ensures var s, s' := configs[i].state, configs[k].state;
            var answer := AnswerTo(Pairs(s.table), h, capacity, op);
            && s'.history == s.history + [Commit(t, op, answer), Return(t, op, answer)]
            && Pairs(s'.table) == Effect(Pairs(s.table), h, capacity, op)
  {
    hide Follows, TableModel.Pairs, Effect, AnswerTo, Legal, Low;
    assert HomeDepth(configs[i].state.table, h, op.Key()) <= configs[i].state.table.dir.globalDepth;
    hide Inv, HomeDepth;
    k := AloneReturns(configs, h, capacity, schedule, pairs, i, t);
  }

  /** A removal that has committed returns after two turns, of which the first is its merge section. */
  lemma MergingReturns(configs: seq<Config>, h: HashFunction, capacity: nat, schedule: seq<Turn>, pairs: set<Pair>,
                       i: nat, t: ThreadId) returns (k: nat)
    requires Follows(configs, h, capacity, schedule) && i + 2 < |configs| && Inv(configs[i].state, h, capacity, pairs)
    requires PhaseOf(configs[i].state, t).Merging? && configs[i].visitors == []
    requires schedule[i].thread == schedule[i + 1].thread == t
    ensures i < k <= i + 2
    ensures PhaseOf(configs[k].state, t).Idle? && configs[k].visitors == []
    ensures var s, s' := configs[i].state, configs[k].state;
            && s'.history == s.history + [Return(t, PhaseOf(s, t).op, PhaseOf(s, t).answer)]
            && Pairs(s'.table) == Pairs(s.table)
  {
    hide Follows, TableModel.Pairs, Inv;
    k := AloneReturns(configs, h, capacity, schedule, pairs, i, t);
  }

  /**
   A call from its beginning to its end: if nobody is inside, and a thread has the next turns to itself, then three for
   each bit that its bucket does not use yet, and five more, are enough. Its three events are recorded in a row, the
   answer is that of the set specification, and so is the stored set that it leaves.
   */
  lemma CallReturns(configs: seq<Config>, h: HashFunction, capacity: nat, schedule: seq<Turn>, pairs: set<Pair>, i: nat,
                    t: ThreadId, op: Op) returns (k: nat)
    requires Follows(configs, h, capacity, schedule) && i < |configs| && Inv(configs[i].state, h, capacity, pairs)
    requires PhaseOf(configs[i].state, t).Idle? && configs[i].visitors == []
    requires var n := 3 * (MAX_DEPTH - HomeDepth(configs[i].state.table, h, op.Key())) + 5;
             i + n < |configs| && schedule[i].op == op && forall j :: i <= j < i + n ==> schedule[j].thread == t
    ensures i < k <= i + 3 * (MAX_DEPTH - HomeDepth(configs[i].state.table, h, op.Key())) + 5
    ensures PhaseOf(configs[k].state, t).Idle? && configs[k].visitors == []
    ensures var s, s' := configs[i].state, configs[k].state;
            var answer := AnswerTo(Pairs(s.table), h, capacity, op);
            && s'.history == s.history + [Call(t, op), Commit(t, op, answer), Return(t, op, answer)]
            && Pairs(s'.table) == Effect(Pairs(s.table), h, capacity, op)
  {
    hide TableModel.Pairs, Effect, AnswerTo, Legal, Low;
    assert HomeDepth(configs[i].state.table, h, op.Key()) <= configs[i].state.table.dir.globalDepth;
    hide Consistent, HomeDepth;
    assert TurnStep(configs[i], h, capacity, schedule[i], configs[i + 1]);
    TurnKeepsInv(configs[i], h, capacity, pairs, schedule[i], configs[i + 1]);
    hide Inv, Follows;
    k := PendingReturns(configs, h, capacity, schedule, pairs, i + 1, t, op);
  }

  // ---------- those inside leave ----------

  lemma OthersKeepPhase(s: State, h: HashFunction, capacity: nat, t: ThreadId, s': State, u: ThreadId)
    requires ThreadStep(s, h, capacity, t, s') && u != t
    ensures PhaseOf(s', u) == PhaseOf(s, u)
  {
    hide InsertSection, SplitSection, RemoveSection, MergeSection, Trie, Route;
  }

  /** The turn of the first visitor: it acts and leaves. */
  lemma FirstLeaves(c: Config, h: HashFunction, capacity: nat, turn: Turn, c': Config)
    requires TurnStep(c, h, capacity, turn, c') && DistinctThreads(c.visitors) && c.visitors != []
    requires c.visitors[0].thread == turn.thread && PhaseOf(c.state, turn.thread).Called?
    ensures c'.visitors == c.visitors[1..] && ThreadStep(c.state, h, capacity, turn.thread, c'.state)
  {
    hide ThreadStep;
  }

  /**
   A thread that waits for the exclusive latch waits no longer than for one turn of each thread inside: after those,
   nobody is inside, and it is where it was.
   */
  lemma {:induction false} VisitorsLeave(configs: seq<Config>, h: HashFunction, capacity: nat, schedule: seq<Turn>,
                                         i: nat, waiting: ThreadId)
    requires Follows(configs, h, capacity, schedule) && i < |configs| && i + |configs[i].visitors| < |configs|
    requires DistinctThreads(configs[i].visitors) && !Inside(configs[i].visitors, waiting)
    requires forall j :: 0 <= j < |configs[i].visitors| ==>
               && schedule[i + j].thread == configs[i].visitors[j].thread
               && PhaseOf(configs[i].state, configs[i].visitors[j].thread).Called?
    ensures configs[i + |configs[i].visitors|].visitors == []
    ensures PhaseOf(configs[i + |configs[i].visitors|].state, waiting) == PhaseOf(configs[i].state, waiting)
    decreases |configs[i].visitors|
  {
    var c := configs[i];
    if c.visitors != [] {
      assert schedule[i + 0].thread == c.visitors[0].thread;
      assert TurnStep(c, h, capacity, schedule[i], configs[i + 1]);
      hide TurnStep, ThreadStep, Follows;
      FirstLeaves(c, h, capacity, schedule[i], configs[i + 1]);
      var rest := configs[i + 1].visitors;
      forall j | 0 <= j < |rest|
        ensures rest[j] == c.visitors[j + 1] && schedule[i + 1 + j].thread == rest[j].thread
        ensures PhaseOf(configs[i + 1].state, rest[j].thread).Called?
      {
        assert schedule[i + (j + 1)].thread == c.visitors[j + 1].thread;
        OthersKeepPhase(c.state, h, capacity, schedule[i].thread, configs[i + 1].state, rest[j].thread);
      }
      OthersKeepPhase(c.state, h, capacity, schedule[i].thread, configs[i + 1].state, waiting);
      VisitorsLeave(configs, h, capacity, schedule, i + 1, waiting);
    }
  }

  /** Every configuration of every schedule is linearisable. */
  lemma {:induction false} EveryScheduleIsLinearisable(configs: seq<Config>, h: HashFunction, capacity: nat,
                                                       schedule: seq<Turn>, i: nat)
    requires Follows(configs, h, capacity, schedule) && Initial(configs[0].state, h, capacity) && i < |configs|
    ensures Inv(configs[i].state, h, capacity, Pairs(configs[0].state.table))
  {
    hide Inv, Consistent, TableModel.Pairs, TurnStep;
    if i == 0 {
      StartsWell(configs[0].state, h, capacity);
    } else {
      EveryScheduleIsLinearisable(configs, h, capacity, schedule, i - 1);
      assert TurnStep(configs[i - 1], h, capacity, schedule[i - 1], configs[i - 1 + 1]);
      TurnKeepsInv(configs[i - 1], h, capacity, Pairs(configs[0].state.table), schedule[i - 1], configs[i]);
    }
  }

  lemma AllLinearisable(configs: seq<Config>, h: HashFunction, capacity: nat, schedule: seq<Turn>)
    requires Follows(configs, h, capacity, schedule) && Initial(configs[0].state, h, capacity)
    ensures forall i :: 0 <= i < |configs| ==> Inv(configs[i].state, h, capacity, Pairs(configs[0].state.table))
  {
    hide Inv, Consistent, TableModel.Pairs, Follows;
    forall i | 0 <= i < |configs|
      ensures Inv(configs[i].state, h, capacity, Pairs(configs[0].state.table))
    {
      EveryScheduleIsLinearisable(configs, h, capacity, schedule, i);
    }
  }

  lemma StartsWell(s: State, h: HashFunction, capacity: nat)
    requires Initial(s, h, capacity)
    ensures Inv(s, h, capacity, Pairs(s.table))
  {
    hide Consistent, TableModel.Pairs;
  }

  ghost predicate Numbered(visitors: seq<Visitor>, n: nat) {
    forall k :: 0 <= k < |visitors| ==> visitors[k].thread < n
  }

  /** Only the thread whose turn it is can come in. */
  lemma StillNumbered(c: Config, h: HashFunction, capacity: nat, turn: Turn, c': Config, n: nat)
    requires TurnStep(c, h, capacity, turn, c') && Numbered(c.visitors, n) && turn.thread < n
    ensures Numbered(c'.visitors, n)
  {
    hide ThreadStep, HomeOf, CallStep;
    if Entering(c, turn.thread) {
      assert forall k :: 0 <= k < |c.visitors| ==> c'.visitors[k] == c'.visitors[..|c.visitors|][k];
    }
  }

  /**
   Any number of threads share the table, and the schedule decides who takes the next step. The configurations that the
   table over the pool goes through are a run of the interleaving model, hence linearisable. An assertion trips exactly
   when a thread is about to enter and the frames do not suffice for the directory page and all different bucket pages
   that are held then. With `n` threads, `n + 1` frames are enough, and three for a split: so it never trips if that
   many are not pinned by others.
   */
  method Follow(table: ExtendibleHashTable, schedule: seq<Turn>, ghost n: nat)
    returns (trapped: bool, threads: map<ThreadId, Phase>, visitors: seq<Visitor>, ghost configs: seq<Config>)
    requires table.Valid() && table.Frames(3) && table.Unheld()
    requires forall i :: 0 <= i < |schedule| ==> schedule[i].thread < n
    modifies table.pool, table.pool.replacer, table.pool.pages
    ensures Follows(configs, table.hashFn, table.capacity, schedule)
    ensures configs[0] == Config(State(old(table.Value()), map[], []), [])
    ensures forall i :: 0 <= i < |configs| ==>
              Inv(configs[i].state, table.hashFn, table.capacity, old(Pairs(table.Value())))
    ensures trapped ==>
              && |configs| <= |schedule| && |configs[|configs| - 1].visitors| >= 2
              && Short(table, old(table.pool.pins), configs[|configs| - 1], schedule[|configs| - 1].thread)
    ensures !trapped ==>
              && |configs| == |schedule| + 1 && configs[|schedule|].visitors == visitors
              && configs[|schedule|].state.threads == threads
              && Orderly(table, old(table.pool.pins), configs[|schedule|])
              && table.pool.debt == old(table.pool.debt)
              && Untouched(old(table.pool.view), table.pool.view, table.directoryPageId)
    ensures old(table.Frames(n + 1)) ==> !trapped
  {
    hide ExtendibleHashTable.Valid, BufferPoolManagerInstance.Valid, TablePages, TableOf, TableModel.Pairs, PinnedIds,
      Untouched, Represents, TableModel.Consistent, TurnStep, Inv, FramesToEnter, HomeOf;
    ghost var base, h, capacity := table.pool.pins, table.hashFn, table.capacity;
    TableIsConsistent(table);
    StartsOrderly(table);
    UntouchedSelf(table.pool.view, table.directoryPageId);
    hide Orderly;
    trapped, threads, visitors := false, map[], [];
    configs := [Config(State(table.Value(), map[], []), [])];
    for i := 0 to |schedule|
      invariant Follows(configs, h, capacity, schedule) && |configs| == i + 1
      invariant configs[0] == Config(State(old(table.Value()), map[], []), [])
      invariant configs[i].visitors == visitors && configs[i].state.threads == threads
      invariant Orderly(table, base, configs[i]) && Numbered(visitors, n)
      invariant table.pool.debt == old(table.pool.debt)
      invariant Untouched(old(table.pool.view), table.pool.view, table.directoryPageId)
    {
      ghost var before := table.pool.view;
      var turn := schedule[i];
      EveryScheduleIsLinearisable(configs, h, capacity, schedule, i);
      EnoughForAll(table, base, configs[i], turn.thread, n);
      ghost var c';
      trapped, threads, visitors, c' :=
        TakeTurn(table, turn, threads, visitors, base, configs[i], Pairs(configs[0].state.table));
      if trapped {
        ShortNeedsTwo(table, base, configs[i], turn.thread);
        AllLinearisable(configs, h, capacity, schedule);
        return;
      }
      StillNumbered(configs[i], h, capacity, turn, c', n);
      configs := configs + [c'];
      UntouchedTransitive(old(table.pool.view), before, table.pool.view, table.directoryPageId);
    }
    AllLinearisable(configs, h, capacity, schedule);
  }

  lemma StartsOrderly(table: ExtendibleHashTable)
    requires table.Valid() && table.Frames(3) && table.Unheld()
    ensures Orderly(table, table.pool.pins, Config(State(table.Value(), map[], []), []))
  {
    hide ExtendibleHashTable.Valid, BufferPoolManagerInstance.Valid, TablePages, TableOf, PinnedIds;
    assert table.pool.pins + PinsOf(table.directoryPageId, []) == table.pool.pins;
  }

  lemma ShortNeedsTwo(table: ExtendibleHashTable, base: multiset<PageId>, c: Config, t: ThreadId)
    requires |PinnedIds(base)| + 3 <= table.pool.poolSize && Short(table, base, c, t)
    ensures |c.visitors| >= 2
  {
    hide PinnedIds, FramesToEnter, HomeOf;
    ShortMeansCompany(base, c.visitors, HomeOf(c.state.table, table.hashFn, PhaseOf(c.state, t).op.Key()),
                      table.pool.poolSize);
  }

  /** One more frame than there are threads lets every thread in. */
  lemma EnoughForAll(table: ExtendibleHashTable, base: multiset<PageId>, c: Config, t: ThreadId, n: nat)
    requires Orderly(table, base, c) && Numbered(c.visitors, n) && t < n
    ensures |PinnedIds(base)| + n + 1 <= table.pool.poolSize ==> !Short(table, base, c, t)
  {
    hide ExtendibleHashTable.Valid, PinnedIds, FramesToEnter, HomeOf, TablePages;
    if Entering(c, t) {
      EnoughFrames(base, c.visitors, HomeOf(c.state.table, table.hashFn, PhaseOf(c.state, t).op.Key()), t, n);
    }
  }
}
