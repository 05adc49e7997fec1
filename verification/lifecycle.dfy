/**
 * Sequences of state-changing calls on one Path component. `Iterate` and `Rebuild` leave the
 * state alone, so a run is a sequence of `Parse`, `SetValue` and `Delete` calls.
 */
module Lifecycle {
  import opened Http
  import opened DataFormat
  import opened PathComponent

  datatype Op =
    | ParseOp(req: Request)
    | SetValueOp(key: string, s: string)
    | DeleteOp(key: string)

  /** A run may start on a loaded component, or on any component when it starts with a parse. */
  predicate CanStart(p: Path, ops: seq<Op>)
  {
    p.Loaded? || ops == [] || ops[0].ParseOp?
  }

  /** One call's effect on the component's state. */
  function Step(p: Path, op: Op, codecs: Registry): (q: Path)
    requires codecs(RawDataFormat).Some?
    requires Valid(p) && CanStart(p, [op])
    ensures Valid(q) && q.Loaded?
  {
    match op
    case ParseOp(req) => Parse(p, req, codecs).next
    case SetValueOp(key, s) => SetValue(p, key, s).0
    case DeleteOp(key) => Delete(p, key).0
  }

  /** The state after performing `ops` in order, starting from `p`. */
  function Run(p: Path, ops: seq<Op>, codecs: Registry): (q: Path)
    requires codecs(RawDataFormat).Some?
    requires Valid(p) && CanStart(p, ops)
    ensures Valid(q)
    ensures q.Loaded? <==> p.Loaded? || ops != []
    decreases |ops|
  {
    if ops == [] then p else Run(Step(p, ops[0], codecs), ops[1..], codecs)
  }

  /**
   * Each `Parse` discards everything before it: the state after a run is the state after its
   * part from any `Parse` onward, started on a fresh component.
   */
  lemma {:induction false} ParseDiscardsHistory(p: Path, ops: seq<Op>, i: nat, codecs: Registry)
    requires codecs(RawDataFormat).Some?
    requires Valid(p) && CanStart(p, ops)
    requires i < |ops| && ops[i].ParseOp?
    ensures Run(p, ops, codecs) == Run(NewPath(), ops[i..], codecs)
    decreases i
  {
    if i == 0 {
      assert Step(p, ops[0], codecs) == Step(NewPath(), ops[0], codecs);
    } else {
      var q := Step(p, ops[0], codecs);
      ParseDiscardsHistory(q, ops[1..], i - 1, codecs);
      assert ops[1..][i - 1..] == ops[i..];
    }
  }

  /** Two components given the same calls, starting with a parse, end in the same state. */
  lemma SameHistoryAfterParse(p1: Path, p2: Path, ops: seq<Op>, codecs: Registry)
    requires codecs(RawDataFormat).Some?
    requires Valid(p1) && Valid(p2)
    requires ops != [] && ops[0].ParseOp?
    ensures Run(p1, ops, codecs) == Run(p2, ops, codecs)
  {
    ParseDiscardsHistory(p1, ops, 0, codecs);
    ParseDiscardsHistory(p2, ops, 0, codecs);
  }
}
