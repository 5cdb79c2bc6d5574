/**
 Many threads on one table. Each latched critical section is one atomic step, and the steps of different threads
 interleave in any order. A call passes through one to many sections, between which the table may change under it.
 */
module Interleaving {
  import opened Types
  import opened Bits
  import opened DirectoryModel
  import opened TableModel
  import opened SetSpec

  type ThreadId = nat

  /** Where a thread is. */
  datatype Phase =
    | Idle
    | Called(op: Op)                     // about to enter the first section of its operation
    | Splitting(op: Op)                  // an insertion that found its bucket full, about to enter SplitInsert
    | Merging(op: Op, answer: Answer)    // a removal about to enter Merge
    | Finished(op: Op, answer: Answer)   // about to return

  datatype Event =
    | Call(thread: ThreadId, op: Op)
    | Commit(thread: ThreadId, op: Op, answer: Answer)
    | Return(thread: ThreadId, op: Op, answer: Answer)

  datatype State = State(table: Table, threads: map<ThreadId, Phase>, history: seq<Event>)

  function PhaseOf(s: State, t: ThreadId): Phase {
    if t in s.threads then s.threads[t] else Idle
  }

  function Moved(s: State, t: ThreadId, phase: Phase, table: Table, events: seq<Event>): State {
    State(table, s.threads[t := phase], s.history + events)
  }

  /** The part of the invariant that the sections of the table need to make sense. */
  ghost predicate WellRouted(t: Table) {
    Trie(t.dir) && t.buckets.Keys == LiveIds(t.dir)
  }

  ghost function HomeBucket(t: Table, h: HashFunction, key: Key): set<Pair>
    requires WellRouted(t)
  {
    RouteIsLive(t.dir, h(key));
    t.buckets[Home(t, h, key)]
  }

  // ---------- steps ----------

  ghost predicate CallStep(s: State, t: ThreadId, op: Op, s': State) {
    PhaseOf(s, t).Idle? && s' == Moved(s, t, Called(op), s.table, [Call(t, op)])
  }

  ghost predicate ReturnStep(s: State, t: ThreadId, s': State) {
    var phase := PhaseOf(s, t);
    phase.Finished? && s' == Moved(s, t, Idle, s.table, [Return(t, phase.op, phase.answer)])
  }

  /** One critical section of the operation of thread `t`. */
  ghost predicate SectionStep(s: State, h: HashFunction, capacity: nat, t: ThreadId, s': State)
    requires WellRouted(s.table)
  {
    match PhaseOf(s, t)
    case Called(GetOp(key)) =>
      var answer := Values(ValuesOf(HomeBucket(s.table, h, key), key));
      s' == Moved(s, t, Finished(GetOp(key), answer), s.table, [Commit(t, GetOp(key), answer)])
    case Called(InsertOp(kv)) =>
      RouteIsLive(s.table.dir, h(kv.key));
      exists done, res ::
        && InsertSection(s.table, h, capacity, kv, s'.table, done, res)
        && s' == AfterInsertion(s, t, kv, s'.table, done, res, Splitting(InsertOp(kv)))
    case Splitting(InsertOp(kv)) =>
      RouteIsLive(s.table.dir, h(kv.key));
      exists newId, done, res ::
        && SplitSection(s.table, h, capacity, kv, newId, s'.table, done, res)
        && s' == AfterInsertion(s, t, kv, s'.table, done, res, Called(InsertOp(kv)))
    case Called(RemoveOp(kv)) =>
      RouteIsLive(s.table.dir, h(kv.key));
      exists res ::
        && RemoveSection(s.table, h, kv, s'.table, res)
        && s' == Moved(s, t, Merging(RemoveOp(kv), Flag(res)), s'.table, [Commit(t, RemoveOp(kv), Flag(res))])
    case Merging(op, answer) =>
      && op.RemoveOp?
      && MergeSection(s.table, h, op.pair.key, s'.table)
      && s' == Moved(s, t, Finished(op, answer), s'.table, [])
    case _ => false
  }

  function AfterInsertion(s: State, t: ThreadId, kv: Pair, table: Table, done: bool, res: bool, next: Phase): State {
    if done then Moved(s, t, Finished(InsertOp(kv), Flag(res)), table, [Commit(t, InsertOp(kv), Flag(res))])
    else Moved(s, t, next, table, [])
  }

  ghost predicate Next(s: State, h: HashFunction, capacity: nat, s': State) {
    exists t: ThreadId :: ThreadStep(s, h, capacity, t, s')
  }

  ghost predicate ThreadStep(s: State, h: HashFunction, capacity: nat, t: ThreadId, s': State) {
    || (exists op :: CallStep(s, t, op, s'))
    || ReturnStep(s, t, s')
    || (WellRouted(s.table) && SectionStep(s, h, capacity, t, s'))
  }

  // ---------- histories ----------

  /** The stored set that the commits of a history lead to. */
  ghost function Committed(pairs: set<Pair>, h: HashFunction, capacity: nat, history: seq<Event>): set<Pair> {
    if history == [] then
      pairs
    else
      var before := Committed(pairs, h, capacity, history[..|history| - 1]);
      var e := history[|history| - 1];
      if e.Commit? then Effect(before, h, capacity, e.op) else before
  }

  /** Each commit answers what the set specification answers at that point. */
  ghost predicate Legal(pairs: set<Pair>, h: HashFunction, capacity: nat, history: seq<Event>) {
    forall i :: 0 <= i < |history| && history[i].Commit? ==>
      history[i].answer == AnswerTo(Committed(pairs, h, capacity, history[..i]), h, capacity, history[i].op)
  }

  /** What a history says about one thread: quiet, inside a call, past its commit, or out of order. */
  datatype Stage = Quiet | Open(op: Op) | Settled(op: Op, answer: Answer) | Broken

  function StageOf(history: seq<Event>, t: ThreadId): Stage {
    if history == [] then
      Quiet
    else
      var before := StageOf(history[..|history| - 1], t);
      var e := history[|history| - 1];
      if e.thread != t then before
      else
        match e
        case Call(_, op) => if before == Quiet then Open(op) else Broken
        case Commit(_, op, answer) => if before == Open(op) then Settled(op, answer) else Broken
        case Return(_, op, answer) => if before == Settled(op, answer) then Quiet else Broken
  }

  ghost predicate StageMatches(phase: Phase, stage: Stage) {
    match phase
    case Idle => stage == Quiet
    case Called(op) => stage == Open(op)
    case Splitting(op) => stage == Open(op) && op.InsertOp?
    case Merging(op, answer) => stage == Settled(op, answer) && op.RemoveOp?
    case Finished(op, answer) => stage == Settled(op, answer)
  }

  /** The invariant of every reachable state, for a table that started out with `pairs`. */
  ghost predicate Inv(s: State, h: HashFunction, capacity: nat, pairs: set<Pair>) {
    && Consistent(s.table, h, capacity)
    && Pairs(s.table) == Committed(pairs, h, capacity, s.history)
    && Legal(pairs, h, capacity, s.history)
    && (forall t: ThreadId :: StageMatches(PhaseOf(s, t), StageOf(s.history, t)))
  }

  ghost predicate Initial(s: State, h: HashFunction, capacity: nat) {
    Consistent(s.table, h, capacity) && s.threads == map[] && s.history == []
  }

  // ---------- every step keeps the invariant ----------

  lemma HistoryGrows(pairs: set<Pair>, h: HashFunction, capacity: nat, history: seq<Event>, e: Event)
    ensures Committed(pairs, h, capacity, history + [e]) ==
            (var before := Committed(pairs, h, capacity, history);
             if e.Commit? then Effect(before, h, capacity, e.op) else before)
    ensures Legal(pairs, h, capacity, history)
            && (e.Commit? ==> e.answer == AnswerTo(Committed(pairs, h, capacity, history), h, capacity, e.op))
            ==> Legal(pairs, h, capacity, history + [e])
  {
    hide Effect, AnswerTo;
    var longer := history + [e];
    assert longer[..|history|] == history;
    forall i | 0 <= i < |history|
      ensures longer[..i] == history[..i] && longer[i] == history[i]
    {
    }
  }

  lemma StageGrows(history: seq<Event>, e: Event, t: ThreadId)
    ensures e.thread != t ==> StageOf(history + [e], t) == StageOf(history, t)
    ensures e == Call(t, e.op) && StageOf(history, t) == Quiet ==> StageOf(history + [e], t) == Open(e.op)
    ensures e.Commit? && e.thread == t && StageOf(history, t) == Open(e.op) ==>
              StageOf(history + [e], t) == Settled(e.op, e.answer)
    ensures e.Return? && e.thread == t && StageOf(history, t) == Settled(e.op, e.answer) ==>
              StageOf(history + [e], t) == Quiet
  {
    assert (history + [e])[..|history|] == history;
  }

  /** A step that records one event. */
  lemma EventKeepsInv(s: State, h: HashFunction, capacity: nat, pairs: set<Pair>, t: ThreadId, phase: Phase,
                      table: Table, e: Event)
    requires Inv(s, h, capacity, pairs) && Consistent(table, h, capacity) && e.thread == t
    requires Pairs(table) == if e.Commit? then Effect(Pairs(s.table), h, capacity, e.op) else Pairs(s.table)
    requires e.Commit? ==> e.answer == AnswerTo(Pairs(s.table), h, capacity, e.op)
    requires StageMatches(phase, StageOf(s.history + [e], t))
    ensures Inv(Moved(s, t, phase, table, [e]), h, capacity, pairs)
  {
    hide Consistent, Effect, AnswerTo, Legal, StageMatches;
    HistoryGrows(pairs, h, capacity, s.history, e);
    var s' := Moved(s, t, phase, table, [e]);
    forall u: ThreadId
      ensures StageMatches(PhaseOf(s', u), StageOf(s'.history, u))
    {
      StageGrows(s.history, e, u);
    }
  }

  /** A step that records nothing and changes nothing but the shape of the table. */
  lemma SilentKeepsInv(s: State, h: HashFunction, capacity: nat, pairs: set<Pair>, t: ThreadId, phase: Phase,
                       table: Table)
    requires Inv(s, h, capacity, pairs) && Consistent(table, h, capacity) && Pairs(table) == Pairs(s.table)
    requires StageMatches(phase, StageOf(s.history, t))
    ensures Inv(Moved(s, t, phase, table, []), h, capacity, pairs)
  {
    hide Consistent, Legal, StageMatches;
    assert s.history + [] == s.history;
  }

  lemma CallKeepsInv(s: State, h: HashFunction, capacity: nat, pairs: set<Pair>, t: ThreadId, op: Op, s': State)
    requires Inv(s, h, capacity, pairs) && CallStep(s, t, op, s')
    ensures Inv(s', h, capacity, pairs)
  {
    hide Consistent, Legal;
    StageGrows(s.history, Call(t, op), t);
    assert StageMatches(PhaseOf(s, t), StageOf(s.history, t));
    EventKeepsInv(s, h, capacity, pairs, t, Called(op), s.table, Call(t, op));
  }

  lemma ReturnKeepsInv(s: State, h: HashFunction, capacity: nat, pairs: set<Pair>, t: ThreadId, s': State)
    requires Inv(s, h, capacity, pairs) && ReturnStep(s, t, s')
    ensures Inv(s', h, capacity, pairs)
  {
    hide Consistent, Legal;
    var phase := PhaseOf(s, t);
    StageGrows(s.history, Return(t, phase.op, phase.answer), t);
    assert StageMatches(phase, StageOf(s.history, t));
    EventKeepsInv(s, h, capacity, pairs, t, Idle, s.table, Return(t, phase.op, phase.answer));
  }

  /** The values in the home bucket of a key are all the values stored under it. */
  lemma GetSectionCorrect(t: Table, h: HashFunction, capacity: nat, key: Key)
    requires Consistent(t, h, capacity) && WellRouted(t)
    ensures ValuesOf(HomeBucket(t, h, key), key) == ValuesOf(Pairs(t), key)
  {
    forall kv: Pair | kv.key == key
      ensures kv in HomeBucket(t, h, key) <==> kv in Pairs(t)
    {
      StoredAtHome(t, h, capacity, kv);
    }
  }

  lemma InsertionKeepsInv(s: State, h: HashFunction, capacity: nat, pairs: set<Pair>, t: ThreadId, kv: Pair,
                          table: Table, done: bool, res: bool, next: Phase)
    requires Inv(s, h, capacity, pairs) && Consistent(table, h, capacity)
    requires PhaseOf(s, t) in {Called(InsertOp(kv)), Splitting(InsertOp(kv))}
    requires next in {Called(InsertOp(kv)), Splitting(InsertOp(kv))}
    requires done ==> (res <==> Insertable(Pairs(s.table), h, capacity, kv))
    requires Pairs(table) == if done && res then Pairs(s.table) + {kv} else Pairs(s.table)
    ensures Inv(AfterInsertion(s, t, kv, table, done, res, next), h, capacity, pairs)
  {
    hide Consistent, Legal, Insertable;
    assert StageMatches(PhaseOf(s, t), StageOf(s.history, t));
    if done {
      var e := Commit(t, InsertOp(kv), Flag(res));
      StageGrows(s.history, e, t);
      EventKeepsInv(s, h, capacity, pairs, t, Finished(InsertOp(kv), Flag(res)), table, e);
    } else {
      SilentKeepsInv(s, h, capacity, pairs, t, next, table);
    }
  }

  lemma SectionKeepsInv(s: State, h: HashFunction, capacity: nat, pairs: set<Pair>, t: ThreadId, s': State)
    requires Inv(s, h, capacity, pairs) && WellRouted(s.table) && SectionStep(s, h, capacity, t, s')
    ensures Inv(s', h, capacity, pairs)
  {
    hide Legal, Insertable, InsertSection, SplitSection, RemoveSection, MergeSection, TableModel.Pairs, Low;
    assert StageMatches(PhaseOf(s, t), StageOf(s.history, t));
    match PhaseOf(s, t)
    case Called(GetOp(key)) =>
      GetSectionCorrect(s.table, h, capacity, key);
      var answer := Values(ValuesOf(HomeBucket(s.table, h, key), key));
      var e := Commit(t, GetOp(key), answer);
      StageGrows(s.history, e, t);
      EventKeepsInv(s, h, capacity, pairs, t, Finished(GetOp(key), answer), s.table, e);
    case Called(InsertOp(kv)) =>
      var done, res :| InsertSection(s.table, h, capacity, kv, s'.table, done, res) &&
                       s' == AfterInsertion(s, t, kv, s'.table, done, res, Splitting(InsertOp(kv)));
      InsertSectionCorrect(s.table, h, capacity, kv, s'.table, done, res);
      InsertionKeepsInv(s, h, capacity, pairs, t, kv, s'.table, done, res, Splitting(InsertOp(kv)));
    case Splitting(InsertOp(kv)) =>
      var newId, done, res :| SplitSection(s.table, h, capacity, kv, newId, s'.table, done, res) &&
                              s' == AfterInsertion(s, t, kv, s'.table, done, res, Called(InsertOp(kv)));
      SplitSectionCorrect(s.table, h, capacity, kv, newId, s'.table, done, res);
      InsertionKeepsInv(s, h, capacity, pairs, t, kv, s'.table, done, res, Called(InsertOp(kv)));
    case Called(RemoveOp(kv)) =>
      var res :| RemoveSection(s.table, h, kv, s'.table, res) &&
        s' == Moved(s, t, Merging(RemoveOp(kv), Flag(res)), s'.table, [Commit(t, RemoveOp(kv), Flag(res))]);
      RemoveSectionCorrect(s.table, h, capacity, kv, s'.table, res);
      var e := Commit(t, RemoveOp(kv), Flag(res));
      StageGrows(s.history, e, t);
      EventKeepsInv(s, h, capacity, pairs, t, Merging(RemoveOp(kv), Flag(res)), s'.table, e);
    case Merging(op, answer) =>
      MergeSectionCorrect(s.table, h, capacity, op.pair.key, s'.table);
      SilentKeepsInv(s, h, capacity, pairs, t, Finished(op, answer), s'.table);
    case _ =>
  }

  lemma NextKeepsInv(s: State, h: HashFunction, capacity: nat, pairs: set<Pair>, s': State)
    requires Inv(s, h, capacity, pairs) && Next(s, h, capacity, s')
    ensures Inv(s', h, capacity, pairs)
  {
    hide Inv, CallStep, ReturnStep, SectionStep;
    var t: ThreadId :| ThreadStep(s, h, capacity, t, s');
    if op :| CallStep(s, t, op, s') {
      CallKeepsInv(s, h, capacity, pairs, t, op, s');
    } else if ReturnStep(s, t, s') {
      ReturnKeepsInv(s, h, capacity, pairs, t, s');
    } else {
      SectionKeepsInv(s, h, capacity, pairs, t, s');
    }
  }

  // ---------- every run ----------

  ghost predicate Run(states: seq<State>, h: HashFunction, capacity: nat) {
    && states != [] && Initial(states[0], h, capacity)
    && (forall i :: 0 <= i < |states| - 1 ==> Next(states[i], h, capacity, states[i + 1]))
  }

  /**
   Linearisability: in every state of every run, whatever the interleaving, the table is consistent and stores exactly
   the set its commits lead to; each commit answers as the set specification does; and each thread alternates call,
   one commit, and a return with the answer of that commit.
   */
  lemma {:induction false} EveryRunIsLinearisable(states: seq<State>, h: HashFunction, capacity: nat, i: nat)
    requires Run(states, h, capacity) && i < |states|
    ensures Inv(states[i], h, capacity, Pairs(states[0].table))
    ensures var s, pairs := states[i], Pairs(states[0].table);
            && Consistent(s.table, h, capacity) && Pairs(s.table) == Committed(pairs, h, capacity, s.history)
            && forall e :: 0 <= e < |s.history| && s.history[e].Commit? ==>
                 s.history[e].answer ==
                 AnswerTo(Committed(pairs, h, capacity, s.history[..e]), h, capacity, s.history[e].op)
  {
    hide Next, Consistent, TableModel.Pairs;
    if i > 0 {
      EveryRunIsLinearisable(states, h, capacity, i - 1);
      hide Inv;
      assert Next(states[i - 1], h, capacity, states[i - 1 + 1]);
      NextKeepsInv(states[i - 1], h, capacity, Pairs(states[0].table), states[i]);
    }
  }

  // ---------- one commit a call ----------

  /** Thread `t` has no event in `history[lo..hi]`. */
  ghost predicate Silent(history: seq<Event>, t: ThreadId, lo: nat, hi: nat)
    requires lo <= hi <= |history|
  {
    forall i :: lo <= i < hi ==> history[i].thread != t
  }

  /** An open call of a thread: its last event is the call. */
  lemma {:induction false} OpenCall(history: seq<Event>, t: ThreadId) returns (c: nat)
    requires StageOf(history, t).Open?
    ensures c < |history| && history[c] == Call(t, StageOf(history, t).op)
    ensures Silent(history, t, c + 1, |history|)
  {
    var n := |history| - 1;
    if history[n].thread != t {
      c := OpenCall(history[..n], t);
    } else {
      c := n;
    }
  }

  /** A call past its commit: its last events are the call and the one commit. */
  lemma {:induction false} SettledCall(history: seq<Event>, t: ThreadId) returns (c: nat, m: nat)
    requires StageOf(history, t).Settled?
    ensures var stage := StageOf(history, t);
            && c < m < |history| && history[c] == Call(t, stage.op)
            && history[m] == Commit(t, stage.op, stage.answer)
            && Silent(history, t, c + 1, m) && Silent(history, t, m + 1, |history|)
  {
    var n := |history| - 1;
    if history[n].thread != t {
      c, m := SettledCall(history[..n], t);
    } else {
      c := OpenCall(history[..n], t);
      m := n;
    }
  }

  lemma {:induction false} PrefixUnbroken(history: seq<Event>, t: ThreadId, n: nat)
    requires n <= |history| && StageOf(history, t) != Broken
    ensures StageOf(history[..n], t) != Broken
  {
    if n < |history| {
      var k := |history| - 1;
      PrefixUnbroken(history[..k], t, n);
      assert history[..k][..n] == history[..n];
    } else {
      assert history[..n] == history;
    }
  }

  /**
   Each return in a run is that of a call with exactly one commit between the two, of the same operation and answer.
   */
  lemma ReturnHasOneCommit(s: State, h: HashFunction, capacity: nat, pairs: set<Pair>, r: nat) returns (c: nat, m: nat)
    requires Inv(s, h, capacity, pairs) && r < |s.history| && s.history[r].Return?
    ensures var e := s.history[r];
            && c < m < r && s.history[c] == Call(e.thread, e.op)
            && s.history[m] == Commit(e.thread, e.op, e.answer)
            && Silent(s.history, e.thread, c + 1, m) && Silent(s.history, e.thread, m + 1, r)
  {
    hide Consistent, Legal;
    var e, history := s.history[r], s.history;
    assert StageMatches(PhaseOf(s, e.thread), StageOf(history, e.thread));
    PrefixUnbroken(history, e.thread, r + 1);
    assert history[..r + 1][..r] == history[..r];
    c, m := SettledCall(history[..r], e.thread);
  }

  // ---------- no thread is ever stuck ----------

  lemma SplitDirectoryExists(d: Directory, slot: nat, newId: PageId) returns (d': Directory)
    requires Shape(d) && slot < Size(d)
    ensures Shape(d') && IsSplit(d, slot, newId, d')
  {
    hide Low;
    var l := d.localDepths[slot];
    d' := Directory(d.globalDepth,
      seq(DIRECTORY_ARRAY_SIZE, i requires 0 <= i < DIRECTORY_ARRAY_SIZE =>
        if i < Size(d) && Low(i, l) == Low(slot, l) then l + 1 else d.localDepths[i]),
      seq(DIRECTORY_ARRAY_SIZE, i requires 0 <= i < DIRECTORY_ARRAY_SIZE =>
        if i < Size(d) && Low(i, l) == Low(slot, l) && Low(i, l + 1) != Low(slot, l + 1) then newId
        else d.bucketPageIds[i]));
  }

  /** Every bucket below the maximal depth can be split. */
  lemma SplitExists(t: Table, h: HashFunction, capacity: nat, key: Key, newId: PageId) returns (t': Table)
    requires Consistent(t, h, capacity) && HomeDepth(t, h, key) < MAX_DEPTH && newId !in t.buckets
    ensures SplitStep(t, h, key, newId, t')
  {
    hide Low, IsSplit;
    WidenedKeepsTrie(t.dir, h(key));
    SlotStandsFor(t.dir, h(key));
    RouteIsLive(t.dir, h(key));
    var d' := SplitDirectoryExists(Widened(t.dir, h(key)), Low(h(key), t.dir.globalDepth), newId);
    var p := Home(t, h, key);
    t' := Table(d', t.buckets[p := set kv | kv in t.buckets[p] && Route(d', h(kv.key)) == p]
                             [newId := set kv | kv in t.buckets[p] && Route(d', h(kv.key)) != p]);
  }

  /** A merge section can always be passed. */
  lemma MergeExists(t: Table, h: HashFunction, capacity: nat, key: Key) returns (t': Table)
    requires Consistent(t, h, capacity) && WellRouted(t)
    ensures MergeSection(t, h, key, t')
  {
    hide Low;
    if Mergeable(t, h, key) {
      var d, slot := t.dir, Low(h(key), t.dir.globalDepth);
      var l, partner := d.localDepths[slot], Route(d, SplitImage(slot, HomeDepth(t, h, key)));
      var merged := Directory(d.globalDepth,
        seq(DIRECTORY_ARRAY_SIZE, i requires 0 <= i < DIRECTORY_ARRAY_SIZE =>
          if i < Size(d) && Low(i, l - 1) == Low(slot, l - 1) then l - 1 else d.localDepths[i]),
        seq(DIRECTORY_ARRAY_SIZE, i requires 0 <= i < DIRECTORY_ARRAY_SIZE =>
          if i < Size(d) && Low(i, l) == Low(slot, l) then partner else d.bucketPageIds[i]));
      assert Shape(merged) && IsMerge(d, slot, partner, merged);
      t' := Table(Shrunk(merged), t.buckets - {Home(t, h, key)});
      assert MergeStep(t, h, key, merged, t');
    } else {
      t' := t;
    }
  }

  /**
   In every reachable state every thread can take its next step, whatever the other threads have done to the table
   since its last one. A split needs a page that no bucket uses.
   */
  lemma NoThreadIsStuck(s: State, h: HashFunction, capacity: nat, pairs: set<Pair>, t: ThreadId, op: Op, unused: PageId)
    returns (s': State)
    requires Inv(s, h, capacity, pairs) && unused !in s.table.buckets
    ensures ThreadStep(s, h, capacity, t, s') && Next(s, h, capacity, s')
  {
    hide Low, Legal, Committed, Minimal;
    assert StageMatches(PhaseOf(s, t), StageOf(s.history, t));
    match PhaseOf(s, t)
    case Idle =>
      s' := Moved(s, t, Called(op), s.table, [Call(t, op)]);
      assert CallStep(s, t, op, s');
    case Finished(o, answer) =>
      s' := Moved(s, t, Idle, s.table, [Return(t, o, answer)]);
      assert ReturnStep(s, t, s');
    case Called(GetOp(key)) =>
      var answer := Values(ValuesOf(HomeBucket(s.table, h, key), key));
      s' := Moved(s, t, Finished(GetOp(key), answer), s.table, [Commit(t, GetOp(key), answer)]);
      assert SectionStep(s, h, capacity, t, s');
    case Called(InsertOp(kv)) =>
      var table, done, res := InsertExists(s.table, h, capacity, kv);
      s' := AfterInsertion(s, t, kv, table, done, res, Splitting(InsertOp(kv)));
      assert SectionStep(s, h, capacity, t, s');
    case Splitting(InsertOp(kv)) =>
      var table, done, res := SplitSectionExists(s.table, h, capacity, kv, unused);
      s' := AfterInsertion(s, t, kv, table, done, res, Called(InsertOp(kv)));
      assert SectionStep(s, h, capacity, t, s');
    case Called(RemoveOp(kv)) =>
      RouteIsLive(s.table.dir, h(kv.key));
      var table, res := DropPair(s.table, h, kv), kv in s.table.buckets[Home(s.table, h, kv.key)];
      s' := Moved(s, t, Merging(RemoveOp(kv), Flag(res)), table, [Commit(t, RemoveOp(kv), Flag(res))]);
      assert RemoveSection(s.table, h, kv, s'.table, res);
      assert SectionStep(s, h, capacity, t, s');
    case Merging(o, answer) =>
      var table := MergeExists(s.table, h, capacity, o.pair.key);
      s' := Moved(s, t, Finished(o, answer), table, []);
      assert SectionStep(s, h, capacity, t, s');
  }

  lemma InsertExists(t: Table, h: HashFunction, capacity: nat, kv: Pair) returns (t': Table, done: bool, res: bool)
    requires Consistent(t, h, capacity)
    ensures Home(t, h, kv.key) in t.buckets
    ensures InsertSection(t, h, capacity, kv, t', done, res)
  {
    hide Low, Minimal;
    RouteIsLive(t.dir, h(kv.key));
    done := |t.buckets[Home(t, h, kv.key)]| < capacity;
    res := kv !in t.buckets[Home(t, h, kv.key)];
    t' := if done then AddPair(t, h, kv) else t;
  }

  lemma SplitSectionExists(t: Table, h: HashFunction, capacity: nat, kv: Pair, newId: PageId)
    returns (t': Table, done: bool, res: bool)
    requires Consistent(t, h, capacity) && newId !in t.buckets
    ensures Home(t, h, kv.key) in t.buckets
    ensures SplitSection(t, h, capacity, kv, newId, t', done, res)
  {
    hide Low, Minimal, SplitStep;
    RouteIsLive(t.dir, h(kv.key));
    if |t.buckets[Home(t, h, kv.key)]| < capacity {
      t', done, res := InsertExists(t, h, capacity, kv);
    } else if HomeDepth(t, h, kv.key) >= MAX_DEPTH {
      t', done, res := t, true, false;
    } else {
      t' := SplitExists(t, h, capacity, kv.key, newId);
      done, res := false, false;
    }
  }
}
