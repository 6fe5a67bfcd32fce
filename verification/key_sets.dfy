/** A plain finite set of keys, against which the trees are measured. */
module KeySets {
  /** One call of a client: the key it names. */
  datatype Op = InsertOp(key: int) | RemoveOp(key: int) | FindOp(key: int)

  /** A plain finite set of keys under the same calls: the next set and whether the key was there. */
  function SetAfter(keys: set<int>, op: Op): set<int> {
    match op
    case InsertOp(k) => keys + {k}
    case RemoveOp(k) => keys - {k}
    case FindOp(k) => keys
  }

  function SetRun(keys: set<int>, ops: seq<Op>): set<int>
    decreases |ops|
  {
    if ops == [] then keys else SetRun(SetAfter(keys, ops[0]), ops[1..])
  }

  function SetAnswers(keys: set<int>, ops: seq<Op>): seq<bool>
    decreases |ops|
  {
    if ops == [] then [] else [ops[0].key in keys] + SetAnswers(SetAfter(keys, ops[0]), ops[1..])
  }
}
