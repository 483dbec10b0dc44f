/** Every transfer that fits the staging buffer comes to its report. */
module TransferProgress {
  import opened Bytes
  import opened ReceiveRing
  import opened Transfer
  import opened TransferSafety

  /** What progress needs of the environment: the UART read, which waits for data, delivers at
      least one byte, and the staging buffer can be allocated. */
  predicate Favours(s: State, a: Action) {
    match a
    case ProducerStep(input) => s.prod.pc == Fetch ==> input != []
    case ConsumerStep(ok, appended, reported) => s.cons.pc == Allocate ==> ok
  }

  /** A run in which every action moves its task and the environment favours progress. */
  predicate Moving(s: State, run: seq<Action>)
    decreases |run|
  {
    run != [] ==>
      Favours(s, run[0]) && Next(s, run[0]) != s && Moving(Next(s, run[0]), run[1..])
  }

  predicate Final(f: Flags) {
    f.success || f.failed
  }

  /** Once the receiving function has returned, a final flag is set or being handled. */
  predicate FinalPending(s: State) {
    s.verdicts == [] && s.prod.pc == Returned ==>
      Final(s.flags) || (s.cons.pc != Wait && Final(s.cons.flags))
  }

  ghost predicate Live(s: State) {
    Inv(s) && Small(s) && s.trap == NoTrap && FinalPending(s)
  }

  function ProducerRank(pc: ProducerPc): nat {
    match pc
    case Fetch => 0
    case TestFail => 60
    case Store => 59
    case RaiseFail => 30
    case TestTotal => 29
    case Announce => 28
    case Signal(_) => 27
    case Returned => 0
  }

  function ConsumerRank(pc: ConsumerPc): nat {
    match pc
    case Wait => 0
    case TestState => 18
    case Open => 17
    case Allocate => 16
    case Drain => 15
    case Advance(_) => 14
    case Flush => 13
    case Conclude => 12
    case Verdict => 11
  }

  /** Steps that are still to come, at most. */
  function Rank(s: State): int {
    100 * (s.announced - |s.prod.received|) + ProducerRank(s.prod.pc)
    + (if s.flags == NO_FLAGS then 0 else 20) + ConsumerRank(s.cons.pc)
  }

  lemma RankIsNatural(s: State)
    requires Live(s)
    ensures Rank(s) >= 0
  {
  }

  lemma ProducerMoves(s: State, input: seq<Byte>)
    requires Live(s) && s.verdicts == [] && s.prod.pc != Returned && (s.prod.pc == Fetch ==> input != [])
    ensures var t := ProducerNext(s, input); t != s && Rank(t) < Rank(s) && FinalPending(t)
  {
    hide WriteRing, Conserved, ConsumerInv;
  }

  lemma ConsumerMoves(s: State, ok: bool, appended: nat, reported: nat)
    requires Live(s) && s.verdicts == [] && (s.cons.pc == Allocate ==> ok)
    requires s.cons.pc == Wait ==> s.flags != NO_FLAGS
    ensures var t := ConsumerNext(s, ok, appended, reported);
            t != s && t.trap == NoTrap && Rank(t) < Rank(s) && FinalPending(t)
  {
    match s.cons.pc
    case Drain => DrainMoves(s);
    case Advance(ret) => AdvanceMoves(s);
    case Flush => FlushMoves(s, appended, reported);
    case Verdict => VerdictMoves(s);
    case Open => OpenMoves(s, ok);
    case Allocate => OpenMoves(s, ok);
    case _ => QuietMoves(s, ok, appended, reported);
  }

  lemma VerdictMoves(s: State)
    requires Live(s) && s.verdicts == [] && s.cons.pc == Verdict
    ensures var t := VerdictNext(s);
            t != s && t.trap == NoTrap && Rank(t) < Rank(s) && FinalPending(t)
  {
    hide Conserved, ConsumerInv, ProducerInv;
  }

  lemma OpenMoves(s: State, ok: bool)
    requires Live(s) && s.verdicts == [] && (s.cons.pc == Open || (s.cons.pc == Allocate && ok))
    ensures var t := if s.cons.pc == Open then OpenNext(s, ok) else AllocateNext(s, ok);
            t.trap == NoTrap && Rank(t) < Rank(s) && FinalPending(t)
  {
    hide Conserved, ConsumerInv, ProducerInv;
  }

  lemma QuietMoves(s: State, ok: bool, appended: nat, reported: nat)
    requires Live(s) && s.verdicts == [] && (s.cons.pc == Wait ==> s.flags != NO_FLAGS)
    requires s.cons.pc == Wait || s.cons.pc == TestState || s.cons.pc == Conclude
    ensures var t := ConsumerNext(s, ok, appended, reported);
            t != s && t.trap == NoTrap && Rank(t) < Rank(s) && FinalPending(t)
  {
    hide Conserved, ConsumerInv, OpenNext, AllocateNext, DrainNext, AdvanceNext, FlushNext, VerdictNext;
  }

  lemma AdvanceMoves(s: State)
    requires Live(s) && s.verdicts == [] && s.cons.pc.Advance?
    ensures var t := AdvanceNext(s, s.cons.pc.ret);
            t.trap == NoTrap && Rank(t) < Rank(s) && FinalPending(t)
  {
    hide Conserved, ProducerInv;
  }

  lemma FlushMoves(s: State, appended: nat, reported: nat)
    requires Live(s) && s.verdicts == [] && s.cons.pc == Flush
    ensures var t := FlushNext(s, appended, reported);
            t.trap == NoTrap && Rank(t) < Rank(s) && FinalPending(t)
  {
    hide Balanced, ProducerInv;
  }

  lemma DrainMoves(s: State)
    requires Live(s) && s.verdicts == [] && s.cons.pc == Drain
    ensures var t := DrainNext(s);
            t.trap == NoTrap && Rank(t) < Rank(s) && FinalPending(t)
  {
    RoomForTheRing(s);
    LargeReadDrains(s.ring.value, s.cons.bufferLengthFree);
    hide ReadRing, Conserved;
  }

  /** Every step that moves uses up rank and stays in the live states. */
  lemma StepsUseRank(s: State, a: Action)
    requires Live(s) && Favours(s, a) && Next(s, a) != s
    ensures Live(Next(s, a)) && Rank(Next(s, a)) < Rank(s)
  {
    NextKeepsInv(s, a);
    HistoryStep(s, a);
    match a
    case ProducerStep(input) => ProducerMoves(s, input);
    case ConsumerStep(ok, appended, reported) => ConsumerMoves(s, ok, appended, reported);
  }

  lemma {:induction false} MovingRun(s: State, run: seq<Action>)
    requires Live(s) && Moving(s, run)
    ensures Live(Exec(s, run)) && |run| + Rank(Exec(s, run)) <= Rank(s)
    decreases |run|
  {
    hide Live, Rank, Next;
    if run != [] {
      StepsUseRank(s, run[0]);
      MovingRun(Next(s, run[0]), run[1..]);
    }
  }

  lemma StartLive(total: nat, disk: Option<seq<Byte>>)
    requires 1 <= total <= READ_FILE_PACKET_SIZE
    ensures Live(Start(total, disk)) && Rank(Start(total, disk)) == 100 * total
  {
    StartInv(total, disk);
  }

  /** Termination: no run of moving steps is longer than a hundred steps a byte. */
  lemma TransfersAreBounded(total: nat, disk: Option<seq<Byte>>, run: seq<Action>)
    requires 1 <= total <= READ_FILE_PACKET_SIZE && Moving(Start(total, disk), run)
    ensures |run| <= 100 * total
  {
    StartLive(total, disk);
    MovingRun(Start(total, disk), run);
    RankIsNatural(Exec(Start(total, disk), run));
  }

  /** No deadlock: until the report, one of the two tasks can move. */
  lemma SomeTaskCanMove(s: State) returns (a: Action)
    requires Live(s) && s.verdicts == []
    ensures Favours(s, a) && Next(s, a) != s
  {
    if s.prod.pc == Returned {
      a := ConsumerStep(true, 0, 0);
      ConsumerMoves(s, true, 0, 0);
    } else {
      a := ProducerStep([0]);
      ProducerMoves(s, [0]);
    }
  }

  /** Exactly one report: a run of moving steps that cannot be prolonged has reported once. */
  lemma EveryCompleteRunReportsOnce(total: nat, disk: Option<seq<Byte>>, run: seq<Action>)
    requires 1 <= total <= READ_FILE_PACKET_SIZE && Moving(Start(total, disk), run)
    requires var s := Exec(Start(total, disk), run);
             forall a :: Favours(s, a) ==> Next(s, a) == s
    ensures |Exec(Start(total, disk), run).verdicts| == 1
  {
    StartLive(total, disk);
    MovingRun(Start(total, disk), run);
    var s := Exec(Start(total, disk), run);
    if s.verdicts == [] {
      var a := SomeTaskCanMove(s);
    }
  }

  // ---------------------------------------------------------------------------
  // Wake-ups
  // ---------------------------------------------------------------------------

  /** The file task has nothing left to do before it waits again. */
  predicate IsDone(pc: ConsumerPc) {
    pc.Advance? || pc == Flush || pc == Conclude || pc == Verdict || pc == Wait
  }

  /** More than 1024 stored bytes are never left to a file task that nobody wakes. */
  predicate Awake(s: State) {
    && (s.ring.Some? ==> s.transmitting)
    && (s.ring.Some? && !Doomed(s) && IsDone(s.cons.pc) && s.ring.value.Stored() > 1024 ==> s.flags.sync)
  }

  /** No lost wake-up, for transfers of any size: in every reachable state without failure, when
      the ring holds more than 1024 bytes and the file task is past its read, the SYNC flag is
      set. */
  lemma NoLostWakeUp(total: nat, disk: Option<seq<Byte>>, run: seq<Action>)
    ensures var s := Exec(Start(total, disk), run);
            && Awake(s)
            && (s.ring.Some? && !Doomed(s) && s.cons.pc == Wait && s.ring.value.Stored() > 1024 ==>
                  s.flags != NO_FLAGS)
  {
    StaysAwake(Start(total, disk), run);
  }

  lemma {:induction false} StaysAwake(s: State, run: seq<Action>)
    requires Awake(s)
    ensures Awake(Exec(s, run))
    decreases |run|
  {
    hide Next, Awake;
    if run != [] {
      NextAwake(s, run[0]);
      StaysAwake(Next(s, run[0]), run[1..]);
    }
  }

  lemma NextAwake(s: State, a: Action)
    requires Awake(s)
    ensures Awake(Next(s, a))
  {
    hide ProducerNext, ConsumerNext;
    match a
    case ProducerStep(input) => ProducerAwake(s, input);
    case ConsumerStep(ok, appended, reported) => ConsumerAwake(s, ok, appended, reported);
  }

  lemma ProducerAwake(s: State, input: seq<Byte>)
    requires Awake(s)
    ensures Awake(ProducerNext(s, input))
  {
    hide Missing;
    if s.prod.pc == Store && s.ring.Some? {
      WriteSignals(s.ring.value, s.prod.chunk);
      hide WriteRing;
    }
  }

  lemma WriteSignals(g: Ring, data: seq<Byte>)
    ensures var o := WriteRing(g, data);
            (o.ring == g && o.ret < 0) || (o.ring.Stored() > 1024 ==> o.sync)
  {
    hide Splice;
  }

  lemma ConsumerAwake(s: State, ok: bool, appended: nat, reported: nat)
    requires Awake(s)
    ensures Awake(ConsumerNext(s, ok, appended, reported))
  {
    hide Splice, Zeros, DrainNext;
    if s.cons.pc == Drain {
      hide Awake;
      DrainAwake(s);
    }
  }

  lemma DrainAwake(s: State)
    requires Awake(s) && s.cons.pc == Drain
    ensures Awake(DrainNext(s))
  {
    hide ReadRing, Splice;
    if s.ring.Some? {
      ReadSignals(s.ring.value, s.cons.bufferLengthFree);
    }
  }

  lemma ReadSignals(g: Ring, len: int)
    ensures var o := ReadRing(g, len);
            o.Done? && o.ret >= 0 && o.ring.Stored() > 1024 ==> o.sync
  {
  }

  /** A pass of the file task that has found no failure comes to its ring read, also when the
      file cannot be opened, with a staging buffer at hand. */
  lemma PassReachesTheRead(s: State, opens: bool, appended: nat, reported: nat)
    requires s.trap == NoTrap && s.cons.pc == Open
    ensures var t := Exec(s, [ConsumerStep(opens, appended, reported), ConsumerStep(true, appended, reported)]);
            && t.trap == NoTrap && t.cons.pc == Drain && t.ring == s.ring
            && (if s.cons.dataBuffer.Some? then t.cons.dataBuffer == s.cons.dataBuffer
                else t.cons.dataBuffer == Some(Zeros(Min(s.total, 131072))) && t.cons.p == 0
                     && t.cons.bufferLengthFree == Min(s.total, 131072))
            && (t.fail <==> s.fail || (!opens && !s.cons.isOpen))
  {
    hide Zeros, ProducerNext;
    var a, b := ConsumerStep(opens, appended, reported), ConsumerStep(true, appended, reported);
    assert [a, b][1..] == [b] && [b][1..] == [];
    assert Exec(Next(s, a), [b]) == Next(Next(s, a), b);
  }
}
