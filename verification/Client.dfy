/** A client that makes any sequence of calls, one after the other. */
module Client {
  import opened Types
  import opened TableModel
  import opened PoolModel
  import opened BufferPool
  import opened SetSpec
  import opened HashTable

  /** Two frames are enough for the pages of any key, and what nobody holds may be deleted. */
  lemma RoomForKey(table: ExtendibleHashTable, key: Key)
    requires table.Valid() && table.Frames(3) && table.Unheld()
    ensures table.Room(table.Pages(key))
    ensures forall kv: Pair :: kv.key == key ==> table.Deletable(table.WithoutPair(kv), key)
    ensures table.Deletable(table.Value(), key)
  {
    hide BufferPoolManagerInstance.Valid, PinnedIds, Mergeable;
    HomePage(table.pool.view, table.directoryPageId, table.capacity, table.hashFn, key);
    RoomForOne(table.pool.pins, table.directoryPageId, Home(table.Value(), table.hashFn, key), table.pool.poolSize);
  }

  /** One call. */
  method Do(table: ExtendibleHashTable, op: Op) returns (answer: Answer)
    requires table.Valid() && table.Frames(3) && table.Unheld()
    modifies table.pool, table.pool.replacer, table.pool.pages
    ensures table.Valid() && table.Tidy() && table.Unheld()
    ensures Pairs(table.Value()) == Effect(old(Pairs(table.Value())), table.hashFn, table.capacity, op)
    ensures answer == AnswerTo(old(Pairs(table.Value())), table.hashFn, table.capacity, op)
  {
    hide ExtendibleHashTable.Valid, BufferPoolManagerInstance.Valid, TablePages, TableOf, TableModel.Pairs, PinnedIds,
      Untouched, Insertable, Represents;
    RoomForKey(table, op.Key());
    match op
    case GetOp(key) =>
      var found, values, _ := table.GetValue(key, []);
      answer := Values(set v | v in values);
      assert values[0..] == values;
      ValuesListed(values, Pairs(table.Value()), key);
    case InsertOp(kv) =>
      var res, trapped, _ := table.Insert(kv.key, kv.value);
      assert !trapped;
      answer := Flag(res);
    case RemoveOp(kv) =>
      var res := table.Remove(kv.key, kv.value);
      answer := Flag(res);
  }

  /**
   Over every sequence of calls, the table behaves as the set of pairs it stores: the stored set and all answers are
   those of the set specification, whatever splits, merges, evictions and reloads happen on the way. Afterwards the
   pins, the debts and all other pages of the pool are as before.
   */
  method Run(table: ExtendibleHashTable, ops: seq<Op>) returns (answers: seq<Answer>)
    requires table.Valid() && table.Frames(3) && table.Unheld()
    modifies table.pool, table.pool.replacer, table.pool.pages
    ensures table.Valid() && table.Tidy() && table.Unheld()
    ensures Pairs(table.Value()) == Effects(old(Pairs(table.Value())), table.hashFn, table.capacity, ops)
    ensures answers == Answers(old(Pairs(table.Value())), table.hashFn, table.capacity, ops)
    ensures table.pool.pins == old(table.pool.pins) && table.pool.debt == old(table.pool.debt)
    ensures var view, own := old(table.pool.view), old(TablePages(table.pool.view, table.directoryPageId));
            forall id :: id in view && id !in own ==> id in table.pool.view && table.pool.view[id] == view[id]
  {
    hide ExtendibleHashTable.Valid, BufferPoolManagerInstance.Valid, TablePages, TableOf, TableModel.Pairs, PinnedIds,
      Untouched, Effect, AnswerTo, Represents;
    answers := [];
    UntouchedSelf(table.pool.view, table.directoryPageId);
    for i := 0 to |ops|
      invariant table.Valid() && table.Tidy() && table.Unheld()
      invariant Pairs(table.Value()) == Effects(old(Pairs(table.Value())), table.hashFn, table.capacity, ops[..i])
      invariant answers == Answers(old(Pairs(table.Value())), table.hashFn, table.capacity, ops[..i])
    {
      ghost var before := table.pool.view;
      var answer := Do(table, ops[i]);
      answers := answers + [answer];
      assert ops[..i + 1][..i] == ops[..i];
      UntouchedTransitive(old(table.pool.view), before, table.pool.view, table.directoryPageId);
    }
    assert ops[..|ops|] == ops;
    UntouchedMeans(old(table.pool.view), table.pool.view, table.directoryPageId);
  }
}
