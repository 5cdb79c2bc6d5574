/** What the hash table is meant to be: a set of pairs of bounded rivalry, and three operations on it. */
module SetSpec {
  import opened Types
  import opened TableModel

  datatype Op = GetOp(key: Key) | InsertOp(pair: Pair) | RemoveOp(pair: Pair) {
    /** The key that the operation is about. */
    function Key(): Key {
      match this
      case GetOp(key) => key
      case InsertOp(kv) => kv.key
      case RemoveOp(kv) => kv.key
    }
  }

  datatype Answer = Values(values: set<Value>) | Flag(ok: bool)

  ghost function ValuesOf(pairs: set<Pair>, key: Key): set<Value> {
    set kv | kv in pairs && kv.key == key :: kv.value
  }

  /** A list with each value of the key once has the right values. */
  lemma ValuesListed(values: seq<Value>, pairs: set<Pair>, key: Key)
    requires forall v :: multiset(values)[v] == if Pair(key, v) in pairs then 1 else 0
    ensures (set v | v in values) == ValuesOf(pairs, key)
  {
    forall v
      ensures v in values <==> v in ValuesOf(pairs, key)
    {
      assert v in values <==> multiset(values)[v] > 0;
      assert Pair(key, v) in pairs ==> v in ValuesOf(pairs, key);
    }
  }

  /** The stored set after an operation. */
  ghost function Effect(pairs: set<Pair>, h: HashFunction, capacity: nat, op: Op): set<Pair> {
    match op
    case GetOp(_) => pairs
    case InsertOp(kv) => if Insertable(pairs, h, capacity, kv) then pairs + {kv} else pairs
    case RemoveOp(kv) => pairs - {kv}
  }

  /** What the operation answers. */
  ghost function AnswerTo(pairs: set<Pair>, h: HashFunction, capacity: nat, op: Op): Answer {
    match op
    case GetOp(key) => Values(ValuesOf(pairs, key))
    case InsertOp(kv) => Flag(Insertable(pairs, h, capacity, kv))
    case RemoveOp(kv) => Flag(kv in pairs)
  }

  /** The stored set after a sequence of operations. */
  ghost function Effects(pairs: set<Pair>, h: HashFunction, capacity: nat, ops: seq<Op>): set<Pair> {
    if ops == [] then
      pairs
    else
      Effect(Effects(pairs, h, capacity, ops[..|ops| - 1]), h, capacity, ops[|ops| - 1])
  }

  /** Their answers, in order. */
  ghost function Answers(pairs: set<Pair>, h: HashFunction, capacity: nat, ops: seq<Op>): seq<Answer> {
    if ops == [] then
      []
    else
      Answers(pairs, h, capacity, ops[..|ops| - 1])
      + [AnswerTo(Effects(pairs, h, capacity, ops[..|ops| - 1]), h, capacity, ops[|ops| - 1])]
  }
}
