/** Any sequence of ring operations against a bounded byte queue. */
module RingRuns {
  import opened Bytes
  import opened ReceiveRing

  datatype RingOp = Put(data: seq<Byte>) | Get(len: int)

  /** The number a call returns and the bytes it copies out. */
  datatype Answer = Answer(ret: int, out: seq<Byte>)

  /** A queue of at most 20480 bytes: refuses what does not fit, hands out the oldest bytes,
      and adds one to the count when bytes remain. */
  function QueueStep(q: seq<Byte>, op: RingOp): (r: (seq<Byte>, Answer))
    ensures |q| <= RECV_DATA_BUFFER_SIZE ==> |r.0| <= RECV_DATA_BUFFER_SIZE
  {
    match op
    case Put(data) =>
      if data == [] || |q| + |data| > RECV_DATA_BUFFER_SIZE then (q, Answer(-1, []))
      else (q + data, Answer(|data|, []))
    case Get(len) =>
      if len <= 0 then (q, Answer(-1, []))
      else if |q| <= len then ([], Answer(|q|, q))
      else (q[len..], Answer(len + 1, q[..len]))
  }

  function QueueRun(q: seq<Byte>, ops: seq<RingOp>): (seq<Byte>, seq<Answer>)
    decreases |ops|
  {
    if ops == [] then (q, [])
    else
      var (q1, a) := QueueStep(q, ops[0]);
      var (q2, rest) := QueueRun(q1, ops[1..]);
      (q2, [a] + rest)
  }

  /** One call on the ring; None when its copies have no defined result. */
  function RingStep(g: Ring, op: RingOp): Option<(Ring, Answer)> {
    match op
    case Put(data) =>
      var o := WriteRing(g, data);
      Some((o.ring, Answer(o.ret, [])))
    case Get(len) =>
      match ReadRing(g, len)
      case BadCopy => None
      case Done(g', ret, out, _) => Some((g', Answer(ret, out)))
  }

  function RingRun(g: Ring, ops: seq<RingOp>): Option<(Ring, seq<Answer>)>
    decreases |ops|
  {
    if ops == [] then Some((g, []))
    else
      match RingStep(g, ops[0])
      case None => None
      case Some((g1, a)) =>
        match RingRun(g1, ops[1..])
        case None => None
        case Some((g2, rest)) => Some((g2, [a] + rest))
  }

  /** Every read of the run meets the ring's contract when it is made. */
  predicate Served(g: Ring, ops: seq<RingOp>)
    decreases |ops|
  {
    ops == [] || (
      && (ops[0].Get? && ops[0].len > 0 ==> ReadContract(g, ops[0].len))
      && (RingStep(g, ops[0]).Some? ==> Served(RingStep(g, ops[0]).value.0, ops[1..])))
  }

  lemma StepRefinesQueue(g: Ring, op: RingOp)
    requires Coherent(g) && (op.Get? && op.len > 0 ==> ReadContract(g, op.len))
    ensures var r := RingStep(g, op);
            && r.Some? && Coherent(r.value.0)
            && (Contents(r.value.0), r.value.1) == QueueStep(Contents(g), op)
  {
    match op
    case Put(data) =>
      if data != [] {
        WriteAppends(g, data);
      }
      hide Contents, Splice;
    case Get(len) =>
      if len > 0 {
        ReadContents(g, len);
      }
      hide Contents;
      var q := Contents(g);
      assert q[..|q|] == q && q[|q|..] == [];
  }

  /** Refinement over runs: a ring and a queue with the same content give the same answers to
      every sequence of operations that stays within the contract, and end with the same
      content. */
  lemma {:induction false} RunRefinesQueue(g: Ring, ops: seq<RingOp>)
    requires Coherent(g) && Served(g, ops)
    ensures var r := RingRun(g, ops);
            && r.Some? && Coherent(r.value.0)
            && (Contents(r.value.0), r.value.1) == QueueRun(Contents(g), ops)
    decreases |ops|
  {
    hide RingStep, QueueStep, Contents, Coherent, ReadContract;
    if ops != [] {
      StepRefinesQueue(g, ops[0]);
      RunRefinesQueue(RingStep(g, ops[0]).value.0, ops[1..]);
    }
  }

  /** Reads that ask for a whole ring are always within the contract. */
  lemma {:induction false} WholeReadsAreServed(g: Ring, ops: seq<RingOp>)
    requires Coherent(g)
    requires forall i :: 0 <= i < |ops| && ops[i].Get? ==> ops[i].len >= RECV_DATA_BUFFER_SIZE
    ensures Served(g, ops)
    decreases |ops|
  {
    if ops != [] {
      if ops[0].Get? {
        LargeReadDrains(g, ops[0].len);
      }
      StepRefinesQueue(g, ops[0]);
      hide RingStep, Contents, Coherent, ReadContract;
      WholeReadsAreServed(RingStep(g, ops[0]).value.0, ops[1..]);
    }
  }
}
