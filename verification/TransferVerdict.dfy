/** The report is exact: a transfer that fits the staging buffer is reported as a success if and
    only if none of its steps failed. */
module TransferVerdict {
  import opened Bytes
  import opened ReceiveRing
  import opened Transfer
  import opened TransferSafety

  /** A step that fails: the ring refuses a chunk (no room, or no bytes in it), the file cannot
      be opened, or `fwrite` does not return the number of bytes it was given. */
  predicate FailingStep(s: State, a: Action) {
    match a
    case ProducerStep(input) =>
      s.prod.pc == Store && s.ring.Some? && (s.prod.chunk == [] || s.ring.value.free < |s.prod.chunk|)
    case ConsumerStep(ok, appended, reported) =>
      || (s.cons.pc == Open && !s.cons.isOpen && !ok)
      || (s.cons.pc == Flush && reported % UINT_MODULUS != s.cons.bufferLength - s.cons.bufferLengthFree)
  }

  /** Some step of the run fails. */
  predicate SomeStepFails(s: State, run: seq<Action>)
    decreases |run|
  {
    run != [] && (FailingStep(s, run[0]) || SomeStepFails(Next(s, run[0]), run[1..]))
  }

  /** With the SUCCESS flag in hand, a pass of the file task first empties the ring and then
      the staging buffer. */
  ghost predicate FlushInv(s: State)
    requires s.ring.Some? && StagingInBounds(s.cons)
  {
    var c := s.cons;
    c.flags.success ==>
      && (c.pc.Advance? || c.pc == Flush || c.pc == Conclude || c.pc == Verdict ==> Contents(s.ring.value) == [])
      && (c.pc == Conclude || c.pc == Verdict ==> Staged(c) == [])
  }

  ghost predicate Exact(s: State) {
    && Inv(s) && Small(s) && s.trap == NoTrap
    && (s.verdicts == [] && !Doomed(s) ==> FlushInv(s))
  }

  lemma ProducerKeepsFlushInv(s: State, input: seq<Byte>)
    requires Exact(s) && s.verdicts == []
    ensures var t := ProducerNext(s, input);
            && (Doomed(t) <==> Doomed(s) || FailingStep(s, ProducerStep(input)))
            && (!Doomed(t) ==> t.cons == s.cons && t.ring.Some? && FlushInv(t))
  {
    hide Conserved, ConsumerInv, SmallInv, Contents, Staged;
    if s.prod.pc == Store {
      WriteIsRefusedIff(s.ring.value, s.prod.chunk);
      hide WriteRing;
    } else {
      hide StoreNext, WriteRing;
      if s.prod.pc != Fetch {
        hide Requested;
      }
    }
  }

  lemma WriteIsRefusedIff(g: Ring, data: seq<Byte>)
    ensures var o := WriteRing(g, data);
            if data == [] || g.free < |data| then o.ret == -1 else o.ret == |data|
  {
  }

  /** At the end of a pass with the SUCCESS flag nothing is left behind, so the byte count is
      the announced total. */
  lemma NothingLeftBehind(s: State)
    requires Exact(s) && s.verdicts == [] && !Doomed(s)
    requires s.cons.flags.success && (s.cons.pc == Conclude || s.cons.pc == Verdict)
    ensures s.cons.totalWriteLen == s.total
  {
    hide Contents;
    assert s.pushed == s.flushed + [] + [];
  }

  lemma ConsumerKeepsFlushInv(s: State, ok: bool, appended: nat, reported: nat)
    requires Exact(s) && s.verdicts == [] && s.cons.pc != Verdict
    ensures var t := ConsumerNext(s, ok, appended, reported);
            t.trap == NoTrap ==>
              && t.verdicts == []
              && (Doomed(t) <==> Doomed(s) || FailingStep(s, ConsumerStep(ok, appended, reported)))
              && (!Doomed(t) ==> Conserved(t) && FlushInv(t))
  {
    NextKeepsInv(s, ConsumerStep(ok, appended, reported));
    match s.cons.pc
    case Drain => DrainKeepsFlushInv(s);
    case Advance(ret) => AdvanceKeepsFlushInv(s);
    case Flush => FlushKeepsFlushInv(s, appended, reported);
    case Conclude =>
      if !Doomed(s) && s.cons.flags.success {
        NothingLeftBehind(s);
      }
      QuietKeepsFlushInv(s, ok, appended, reported);
    case _ => QuietKeepsFlushInv(s, ok, appended, reported);
  }

  lemma QuietKeepsFlushInv(s: State, ok: bool, appended: nat, reported: nat)
    requires Exact(s) && s.verdicts == [] && !Looping(s.cons.pc) && s.cons.pc != Verdict
    requires s.cons.pc == Conclude && s.cons.flags.success && !Doomed(s) ==> s.cons.totalWriteLen == s.total
    requires var t := ConsumerNext(s, ok, appended, reported); t.trap == NoTrap ==> Inv(t)
    ensures var t := ConsumerNext(s, ok, appended, reported);
            t.trap == NoTrap ==>
              && t.verdicts == []
              && (Doomed(t) <==> Doomed(s) || FailingStep(s, ConsumerStep(ok, appended, reported)))
              && (!Doomed(t) ==> Conserved(t) && FlushInv(t))
  {
    hide DrainNext, AdvanceNext, FlushNext, VerdictNext, Contents, Balanced, Zeros;
  }

  lemma DrainKeepsFlushInv(s: State)
    requires Exact(s) && s.verdicts == [] && s.cons.pc == Drain && Inv(DrainNext(s))
    ensures var t := DrainNext(s);
            t.trap == NoTrap && t.verdicts == [] && (Doomed(t) <==> Doomed(s))
            && Conserved(t) && FlushInv(t)
  {
    RoomForTheRing(s);
    LargeReadDrains(s.ring.value, s.cons.bufferLengthFree);
    hide ReadRing, Contents, Balanced;
  }

  lemma AdvanceKeepsFlushInv(s: State)
    requires Exact(s) && s.verdicts == [] && s.cons.pc.Advance? && Inv(AdvanceNext(s, s.cons.pc.ret))
    ensures var t := AdvanceNext(s, s.cons.pc.ret);
            t.verdicts == [] && (Doomed(t) <==> Doomed(s)) && (!Doomed(t) ==> Conserved(t) && FlushInv(t))
  {
    hide Contents, Balanced;
  }

  lemma FlushKeepsFlushInv(s: State, appended: nat, reported: nat)
    requires Exact(s) && s.verdicts == [] && s.cons.pc == Flush && Inv(FlushNext(s, appended, reported))
    ensures var t := FlushNext(s, appended, reported);
            && t.trap == NoTrap && t.verdicts == []
            && (Doomed(t) <==> Doomed(s) || FailingStep(s, ConsumerStep(true, appended, reported)))
            && (!Doomed(t) ==> Conserved(t) && FlushInv(t))
  {
    hide Contents, Balanced;
  }

  /** One step: the failure flag (set or about to be set) records exactly the failing steps. */
  lemma StepIsExact(s: State, a: Action)
    requires Exact(s) && s.verdicts == [] && Next(s, a).trap == NoTrap
    ensures var t := Next(s, a);
            && Exact(t)
            && (t.verdicts == [] ==> (Doomed(t) <==> Doomed(s) || FailingStep(s, a)))
            && (t.verdicts != [] ==> t.verdicts == [!Doomed(s)] && !FailingStep(s, a))
  {
    NextKeepsInv(s, a);
    HistoryStep(s, a);
    match a
    case ProducerStep(input) =>
      ProducerKeepsFlushInv(s, input);
      ProducerReportsNothing(s, input);
    case ConsumerStep(ok, appended, reported) =>
      if s.cons.pc == Verdict {
        VerdictIsDoomed(s);
      } else {
        ConsumerKeepsFlushInv(s, ok, appended, reported);
      }
  }

  lemma ProducerReportsNothing(s: State, input: seq<Byte>)
    ensures ProducerNext(s, input).verdicts == s.verdicts
  {
    hide WriteRing;
  }

  lemma VerdictIsDoomed(s: State)
    requires Exact(s) && s.verdicts == [] && s.cons.pc == Verdict
    ensures VerdictNext(s).verdicts == [!Doomed(s)]
  {
    hide Conserved, ConsumerInv;
  }

  lemma {:induction false} RunIsExact(s: State, run: seq<Action>)
    requires Exact(s) && s.verdicts == [] && Exec(s, run).trap == NoTrap
    ensures var t := Exec(s, run);
            t.verdicts != [] ==> t.verdicts == [!(Doomed(s) || SomeStepFails(s, run))]
    decreases |run|
  {
    if run != [] {
      var a, t := run[0], Next(s, run[0]);
      TrapStays(t, run[1..]);
      StepIsExact(s, a);
      hide Exact, Next, Doomed, FailingStep;
      if t.verdicts == [] {
        RunIsExact(t, run[1..]);
      } else {
        ReportedRunIsQuiet(t, run[1..]);
      }
    }
  }

  lemma {:induction false} TrapStays(s: State, run: seq<Action>)
    ensures s.trap != NoTrap ==> Exec(s, run) == s
    decreases |run|
  {
    if run != [] && s.trap != NoTrap {
      TrapStays(Next(s, run[0]), run[1..]);
    }
  }

  /** After the report no step moves, so none fails. */
  lemma {:induction false} ReportedRunIsQuiet(s: State, run: seq<Action>)
    requires Exact(s) && s.verdicts != []
    ensures Exec(s, run) == s && !SomeStepFails(s, run)
    decreases |run|
  {
    if run != [] {
      NextKeepsInv(s, run[0]);
      hide Next;
      ReportedRunIsQuiet(s, run[1..]);
    }
  }

  /** Main result: for a total of at most 131072 bytes, whatever the interleaving and the
      environment, the report is success if no step of the run failed, and failure if one did. */
  lemma VerdictIsExact(total: nat, disk: Option<seq<Byte>>, run: seq<Action>)
    requires 1 <= total <= READ_FILE_PACKET_SIZE
    requires Exec(Start(total, disk), run).trap == NoTrap
    ensures var s := Exec(Start(total, disk), run);
            s.verdicts != [] ==> s.verdicts == [!SomeStepFails(Start(total, disk), run)]
  {
    StartInv(total, disk);
    RunIsExact(Start(total, disk), run);
  }
}
