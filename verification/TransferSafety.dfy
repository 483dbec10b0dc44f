/** What every step of a transfer keeps, and what that means for the file. */
module TransferSafety {
  import opened Bytes
  import opened ReceiveRing
  import opened Transfer

  /** Bytes in the staging buffer that have not been handed to `fwrite`. While the result of a
      ring read is still to be processed, the bytes it copied lie behind `p`. */
  function StagedLength(c: Consumer): int {
    if c.pc.Advance? then c.p + ReadCount(c) else c.p
  }

  /** The number of bytes the last ring read copied, recovered from its result. */
  function ReadCount(c: Consumer): int
    requires c.pc.Advance?
  {
    if c.pc.ret > c.bufferLengthFree then c.pc.ret - 1 else c.pc.ret
  }

  predicate StagingInBounds(c: Consumer) {
    c.dataBuffer.Some? ==> 0 <= c.p <= StagedLength(c) <= |c.dataBuffer.value|
  }

  function Prefix(buffer: Option<seq<Byte>>, n: int): seq<Byte>
    requires buffer.Some? ==> 0 <= n <= |buffer.value|
  {
    if buffer.Some? then buffer.value[..n] else []
  }

  function Staged(c: Consumer): seq<Byte>
    requires StagingInBounds(c)
  {
    Prefix(c.dataBuffer, StagedLength(c))
  }

  /** Bytes already given to the file, bytes staged and bytes in the ring are together the
      bytes the ring accepted, in order. */
  ghost predicate Balanced(pushed: seq<Byte>, flushed: seq<Byte>, staged: seq<Byte>, g: Ring) {
    && Coherent(g)
    && pushed == flushed + staged + Contents(g)
  }

  /** No byte is lost, and the staging indices are coherent. */
  ghost predicate Conserved(s: State) {
    && s.ring.Some?
    && (s.cons.pc.Advance? ==> s.cons.pc.ret >= 0)
    && StagingInBounds(s.cons)
    && StagingCounts(s.cons)
    && StagingHasRoom(s.cons)
    && Balanced(s.pushed, s.flushed, Staged(s.cons), s.ring.value)
  }

  predicate StagingCounts(c: Consumer) {
    if c.dataBuffer.Some? then
      |c.dataBuffer.value| == c.bufferLength && c.p + c.bufferLengthFree == c.bufferLength
    else
      c.bufferLengthFree == c.bufferLength && (c.pc.Advance? ==> c.pc.ret == 0)
  }

  /** Outside the processing of a read and the flush, the staging buffer has room. */
  predicate StagingHasRoom(c: Consumer) {
    c.dataBuffer.Some? && !c.pc.Advance? && c.pc != Flush ==> c.bufferLengthFree > 0
  }

  /** `bFail` is set, or is about to be. */
  predicate Doomed(s: State) {
    s.fail || s.prod.pc == RaiseFail || (s.cons.pc.Advance? && s.cons.pc.ret < 0)
  }

  predicate Small(s: State) {
    s.announced <= READ_FILE_PACKET_SIZE
  }

  /** The receiving function: what it has received, and which of it the ring has. */
  predicate ProducerInv(s: State) {
    var p := s.prod;
    && |p.received| <= s.announced
    && |p.chunk| <= |p.received|
    && (p.pc == Fetch ==> |p.received| < s.announced)
    && (p.pc.Announce? || p.pc.Signal? || p.pc == Returned ==> |p.received| == s.announced)
    && |s.pushed| + (if p.pc == TestFail || p.pc == Store then |p.chunk| else 0) <= |p.received|
    && (!Doomed(s) ==>
          p.received == s.pushed + (if p.pc == TestFail || p.pc == Store then p.chunk else []))
    && (p.pc == Signal(false) ==> s.fail)
  }

  /** The final flags are raised only by the receiving function's last step. */
  predicate FlagInv(s: State) {
    && (s.flags.success || s.cons.flags.success ==> s.prod.pc == Returned)
    && (s.flags.failed || s.cons.flags.failed ==> s.prod.pc == Returned && s.fail)
    && (s.cons.pc == Verdict ==> s.cons.flags.success || s.cons.flags.failed)
  }

  predicate Looping(pc: ConsumerPc) {
    pc == Drain || pc.Advance? || pc == Flush
  }

  /** The file task: the file, the byte count and the staging buffer. */
  predicate ConsumerInv(s: State) {
    var c := s.cons;
    && (Looping(c.pc) || c.dataBuffer.Some? ==> c.bufferLength == Min(s.announced, READ_FILE_PACKET_SIZE))
    && (c.pc == Flush ==> c.dataBuffer.Some? || Doomed(s))
    && (c.isOpen <==> s.created)
    && (c.isOpen ==> s.file.Some?)
    && (!Doomed(s) && (Looping(c.pc) || c.pc == Allocate) ==> c.isOpen)
    && (!Doomed(s) && !c.isOpen ==> s.flushed == [])
    && (!Doomed(s) && c.isOpen ==> s.file == Some(s.flushed))
    && (!Doomed(s) ==> c.totalWriteLen == |s.flushed|)
    && (c.pc == Verdict && !s.fail ==> c.totalWriteLen == s.total)
  }

  /** Only in the domain of `TrapFreeIffFits`: each pass of the do/while ends it. */
  predicate SmallInv(s: State) {
    var c := s.cons;
    && c.cleared && (Looping(c.pc) ==> c.dataBuffer.Some?)
    && (c.pc.Advance? ==> c.pc.ret <= c.bufferLengthFree)
  }

  /** After the report nothing can move any more. */
  predicate Reported(s: State) {
    && |s.verdicts| == 1
    && !s.transmitting
    && s.flags == NO_FLAGS && s.total == 0 && s.ring == None
    && s.cons.pc == Wait && !s.cons.isOpen && s.cons.totalWriteLen == 0
    && s.prod.pc == Returned
    && |s.prod.received| == s.announced
    && (s.verdicts[0] ==> s.file == Some(s.prod.received))
    && (!s.verdicts[0] && s.created ==> s.file == None)
  }

  ghost predicate Running(s: State) {
    && s.verdicts == [] && s.transmitting && s.total == s.announced && s.ring.Some?
    && ProducerInv(s) && FlagInv(s) && ConsumerInv(s)
    && (Small(s) || !Doomed(s) ==> Conserved(s))
    && (Small(s) ==> SmallInv(s))
  }

  ghost predicate Inv(s: State) {
    && 1 <= s.announced < INT_LIMIT
    && match s.trap
       case NoTrap => Running(s) || Reported(s)
       case NullStaging => s.verdicts == []
       case OutOfBounds => s.verdicts == [] && !Small(s)
  }

  lemma StartInv(total: nat, disk: Option<seq<Byte>>)
    requires 1 <= total < INT_LIMIT
    ensures Inv(Start(total, disk))
  {
  }

  lemma ProducerKeepsInv(s: State, input: seq<Byte>)
    requires Inv(s) && s.trap == NoTrap && s.verdicts == []
    ensures Inv(ProducerNext(s, input))
  {
    hide Balanced, WriteRing, StoreNext;
    if s.prod.pc == Store {
      if Small(s) || !Doomed(s) {
        BalancedIsCoherent(s);
      }
      WriteAnswers(s.ring.value, s.prod.chunk);
      StoreKeepsInv(s, WriteRing(s.ring.value, s.prod.chunk));
    } else {
      hide Conserved, ConsumerInv, SmallInv, Staged;
      var t := ProducerNext(s, input);
      FileTaskUntouched(s, t);
      ProducerPartKept(s, input);
    }
  }

  lemma ProducerPartKept(s: State, input: seq<Byte>)
    requires Running(s) && 1 <= s.announced < INT_LIMIT && s.trap == NoTrap && s.prod.pc != Store
    ensures ProducerInv(ProducerNext(s, input)) && FlagInv(ProducerNext(s, input))
  {
    hide Conserved, ConsumerInv, SmallInv, Staged, StoreNext;
    if s.prod.pc == Fetch {
      assert Missing(s) == s.total - |s.prod.received|;
    } else {
      hide Requested;
    }
  }

  /** A step of the receiving function that leaves the ring alone keeps the file task's part. */
  lemma FileTaskUntouched(s: State, t: State)
    requires t.ring == s.ring && t.cons == s.cons && t.file == s.file && t.total == s.total
    requires t.announced == s.announced && t.pushed == s.pushed && t.flushed == s.flushed
    requires t.created == s.created && (s.fail ==> t.fail) && (Doomed(s) ==> Doomed(t))
    ensures Conserved(s) ==> Conserved(t)
    ensures ConsumerInv(s) ==> ConsumerInv(t)
    ensures SmallInv(s) ==> SmallInv(t)
  {
  }

  lemma BalancedIsCoherent(s: State)
    requires Conserved(s)
    ensures Coherent(s.ring.value)
  {
  }

  lemma WriteAnswers(g: Ring, data: seq<Byte>)
    ensures var o := WriteRing(g, data);
            && (o.ret == |data| || o.ret == -1)
            && (Coherent(g) ==>
                  Coherent(o.ring)
                  && Contents(o.ring) == Contents(g) + (if o.ret < 0 then [] else data))
  {
    if Coherent(g) && data != [] {
      WriteAppends(g, data);
    }
  }

  lemma StoreKeepsInv(s: State, o: WriteOutcome)
    requires Running(s) && s.trap == NoTrap && 1 <= s.announced < INT_LIMIT && s.prod.pc == Store
    requires o.ret == |s.prod.chunk| || o.ret == -1
    requires Small(s) || !Doomed(s) ==> Coherent(o.ring)
    requires Small(s) || !Doomed(s) ==>
               Contents(o.ring) == Contents(s.ring.value) + (if o.ret < 0 then [] else s.prod.chunk)
    ensures Inv(StoreNext(s, o))
  {
    var t := StoreNext(s, o);
    hide Contents, Coherent;
    if Small(s) || !Doomed(s) {
      StoreConserves(s, o);
    }
    ConsumerPartKept(s, t);
    hide Conserved, ConsumerInv, SmallInv;
    assert ProducerInv(t) && FlagInv(t);
  }

  lemma ConsumerPartKept(s: State, t: State)
    requires t.cons == s.cons && t.file == s.file && t.total == s.total && t.announced == s.announced
    requires t.flushed == s.flushed && t.created == s.created && (s.fail ==> t.fail) && (Doomed(s) ==> Doomed(t))
    ensures ConsumerInv(s) ==> ConsumerInv(t)
    ensures SmallInv(s) ==> SmallInv(t)
  {
  }

  lemma StoreConserves(s: State, o: WriteOutcome)
    requires Conserved(s) && Coherent(o.ring)
    requires Contents(o.ring) == Contents(s.ring.value) + (if o.ret < 0 then [] else s.prod.chunk)
    ensures Conserved(StoreNext(s, o))
  {
    hide Contents, Coherent;
  }

  lemma ConsumerKeepsInv(s: State, ok: bool, appended: nat, reported: nat)
    requires Inv(s) && s.trap == NoTrap && s.verdicts == []
    ensures Inv(ConsumerNext(s, ok, appended, reported))
  {
    match s.cons.pc
    case Drain => DrainKeepsInv(s);
    case Advance(ret) => AdvanceKeepsInv(s);
    case Flush => FlushKeepsInv(s, appended, reported);
    case Verdict => VerdictKeepsInv(s);
    case Open => OpenKeepsInv(s, ok);
    case Allocate => AllocateKeepsInv(s, ok);
    case _ => QuietKeepsInv(s, ok, appended, reported);
  }

  /** A step of the file task that leaves the ring alone keeps the receiving function's part. */
  lemma ProducerUntouched(s: State, t: State)
    requires t.prod == s.prod && t.announced == s.announced && t.pushed == s.pushed
    requires (s.fail ==> t.fail) && (Doomed(s) ==> Doomed(t))
    ensures ProducerInv(s) ==> ProducerInv(t)
  {
  }

  lemma QuietKeepsInv(s: State, ok: bool, appended: nat, reported: nat)
    requires Inv(s) && s.trap == NoTrap && s.verdicts == []
    requires s.cons.pc == Wait || s.cons.pc == TestState || s.cons.pc == Conclude
    ensures Inv(ConsumerNext(s, ok, appended, reported))
  {
    var t := ConsumerNext(s, ok, appended, reported);
    hide OpenNext, AllocateNext, DrainNext, AdvanceNext, FlushNext, VerdictNext;
    hide Balanced, ProducerInv, Conserved, Staged;
    ProducerUntouched(s, t);
    StagingUntouched(s, t);
    QuietConsumerPart(s, ok, appended, reported);
    hide ConsumerInv, FlagInv;
  }

  lemma QuietConsumerPart(s: State, ok: bool, appended: nat, reported: nat)
    requires s.verdicts == [] && s.transmitting && FlagInv(s) && ConsumerInv(s)
    requires s.cons.pc == Wait || s.cons.pc == TestState || s.cons.pc == Conclude
    ensures var t := ConsumerNext(s, ok, appended, reported); FlagInv(t) && ConsumerInv(t)
  {
    hide OpenNext, AllocateNext, DrainNext, AdvanceNext, FlushNext, VerdictNext;
  }

  lemma StagingUntouched(s: State, t: State)
    requires t.ring == s.ring && t.pushed == s.pushed && t.flushed == s.flushed
    requires t.cons == s.cons.(pc := t.cons.pc, flags := t.cons.flags)
    requires !Looping(s.cons.pc) && !Looping(t.cons.pc)
    ensures Conserved(s) ==> Conserved(t)
  {
    hide Balanced;
  }

  lemma OpenKeepsInv(s: State, ok: bool)
    requires Inv(s) && s.trap == NoTrap && s.verdicts == [] && s.cons.pc == Open
    ensures Inv(OpenNext(s, ok))
  {
    hide Balanced, ProducerInv;
    ProducerUntouched(s, OpenNext(s, ok));
  }

  lemma AllocateKeepsInv(s: State, ok: bool)
    requires Inv(s) && s.trap == NoTrap && s.verdicts == [] && s.cons.pc == Allocate
    ensures Inv(AllocateNext(s, ok))
  {
    hide Balanced, ProducerInv;
    var t := AllocateNext(s, ok);
    ProducerUntouched(s, t);
    if t.trap == NoTrap && (Small(s) || !Doomed(s)) {
      assert Staged(t.cons) == Staged(s.cons);
    }
  }

  lemma DrainKeepsInv(s: State)
    requires Inv(s) && s.trap == NoTrap && s.verdicts == [] && s.cons.pc == Drain
    ensures Inv(DrainNext(s))
  {
    var g, len := s.ring.value, s.cons.bufferLengthFree;
    if Small(s) || !Doomed(s) {
      ReadExactOrNotAtAll(g, len);
      if Small(s) {
        RoomForTheRing(s);
        LargeReadDrains(g, len);
      }
      CopyConserves(s, ReadRing(g, len));
    }
    CopyKeepsInv(s, ReadRing(g, len));
  }

  /** The heart of the pipeline: the staging buffer has room for everything in the ring, so
      the read empties the ring and the copy stays inside the staging buffer. */
  lemma RoomForTheRing(s: State)
    requires Running(s) && Small(s) && s.cons.pc == Drain
    ensures Conserved(s) && 0 < s.cons.bufferLengthFree
    ensures |Contents(s.ring.value)| <= s.cons.bufferLengthFree
  {
  }

  lemma CopyConserves(s: State, o: ReadOutcome)
    requires s.trap == NoTrap && s.cons.pc == Drain && Conserved(s) && s.cons.bufferLengthFree > 0
    requires o.Done? && o.ret >= 0 ==> DequeuesOldest(s.ring.value, s.cons.bufferLengthFree, o)
    ensures var t := CopyNext(s, o);
            && (t.trap == NoTrap ==> t.cons.pc == Advance(o.ret))
            && (t.trap == NoTrap && o.ret >= 0 ==> Conserved(t))
            && (o.Done? && o.ret >= 0 && s.cons.dataBuffer.Some? ==> t.trap == NoTrap)
  {
    if o.Done? && o.ret >= 0 {
      DequeueMoves(s.pushed, s.flushed, Staged(s.cons), s.ring.value, s.cons.bufferLengthFree, o);
      hide Balanced, Contents, Coherent, DequeuesOldest;
      var t, c := CopyNext(s, o), s.cons;
      if t.trap == NoTrap {
        assert Staged(t.cons) == Staged(c) + o.out;
      }
    }
  }

  lemma DequeueMoves(pushed: seq<Byte>, flushed: seq<Byte>, staged: seq<Byte>, g: Ring, len: int, o: ReadOutcome)
    requires Balanced(pushed, flushed, staged, g) && len > 0 && DequeuesOldest(g, len, o)
    ensures Balanced(pushed, flushed, staged + o.out, o.ring)
    ensures |o.out| <= len && o.ret == |o.out| + (if o.ret > len then 1 else 0)
    ensures o.out == [] ==> o.ret == 0
  {
    hide Contents;
    assert Contents(g) == o.out + Contents(o.ring);
  }

  lemma CopyKeepsInv(s: State, o: ReadOutcome)
    requires Running(s) && s.trap == NoTrap && s.cons.pc == Drain && 1 <= s.announced < INT_LIMIT
    requires var t := CopyNext(s, o);
             (Small(s) || !Doomed(s)) && t.trap == NoTrap && t.cons.pc.ret >= 0 ==> Conserved(t)
    requires var t := CopyNext(s, o);
             Small(s) ==> t.trap == NoTrap && 0 <= t.cons.pc.ret <= t.cons.bufferLengthFree
    ensures Inv(CopyNext(s, o))
  {
    hide Contents;
    var t := CopyNext(s, o);
    if t.trap == NoTrap {
      assert ProducerInv(t);
      assert FlagInv(t);
      assert ConsumerInv(t);
    }
  }

  lemma AdvanceKeepsInv(s: State)
    requires Inv(s) && s.trap == NoTrap && s.verdicts == [] && s.cons.pc.Advance?
    ensures Inv(AdvanceNext(s, s.cons.pc.ret))
  {
    hide Contents;
    var t := AdvanceNext(s, s.cons.pc.ret);
    if Small(s) || !Doomed(s) {
      assert Staged(t.cons) == Staged(s.cons);
    }
  }

  lemma FlushKeepsInv(s: State, appended: nat, reported: nat)
    requires Inv(s) && s.trap == NoTrap && s.verdicts == [] && s.cons.pc == Flush
    ensures Inv(FlushNext(s, appended, reported))
  {
    hide Contents;
  }

  lemma VerdictKeepsInv(s: State)
    requires Inv(s) && s.trap == NoTrap && s.verdicts == [] && s.cons.pc == Verdict
    ensures Inv(VerdictNext(s))
  {
    hide Contents;
    if !s.fail {
      assert s.prod.received == s.flushed + Staged(s.cons) + Contents(s.ring.value);
      assert |s.flushed| == |s.prod.received|;
      assert s.flushed == s.prod.received;
    }
  }

  // ---------------------------------------------------------------------------
  // Statements about all runs
  // ---------------------------------------------------------------------------

  lemma NextKeepsInv(s: State, a: Action)
    requires Inv(s)
    ensures Inv(Next(s, a))
    ensures s.verdicts != [] ==> Next(s, a) == s
  {
    if s.trap == NoTrap && s.verdicts == [] {
      match a
      case ProducerStep(input) => ProducerKeepsInv(s, input);
      case ConsumerStep(ok, appended, reported) => ConsumerKeepsInv(s, ok, appended, reported);
    }
  }

  lemma {:induction false} ExecKeepsInv(s: State, run: seq<Action>)
    requires Inv(s)
    ensures Inv(Exec(s, run))
    ensures s.verdicts != [] ==> Exec(s, run) == s
    decreases |run|
  {
    if run != [] {
      NextKeepsInv(s, run[0]);
      ExecKeepsInv(Next(s, run[0]), run[1..]);
    }
  }

  lemma {:induction false} ExecConcat(s: State, run: seq<Action>, more: seq<Action>)
    ensures Exec(s, run + more) == Exec(Exec(s, run), more)
    decreases |run|
  {
    if run == [] {
      assert run + more == more;
    } else {
      assert (run + more)[1..] == run[1..] + more;
      ExecConcat(Next(s, run[0]), run[1..], more);
    }
  }

  lemma ReachableInv(total: nat, disk: Option<seq<Byte>>, run: seq<Action>)
    requires 1 <= total < INT_LIMIT
    ensures Inv(Exec(Start(total, disk), run))
    ensures Exec(Start(total, disk), run).announced == total
  {
    StartInv(total, disk);
    ExecKeepsInv(Start(total, disk), run);
    AnnouncedIsConstant(Start(total, disk), run);
  }

  lemma {:induction false} AnnouncedIsConstant(s: State, run: seq<Action>)
    ensures Exec(s, run).announced == s.announced
    decreases |run|
  {
    hide Next;
    if run != [] {
      HistoryStep(s, run[0]);
      AnnouncedIsConstant(Next(s, run[0]), run[1..]);
    }
  }

  /** Safety: whatever the interleaving, the UART fragments, the file system and the size of
      the transfer, a reported success means the file holds exactly the received bytes, in
      order, and as many as were announced. */
  lemma SuccessMeansExactFile(total: nat, disk: Option<seq<Byte>>, run: seq<Action>)
    requires 1 <= total < INT_LIMIT
    ensures var s := Exec(Start(total, disk), run);
            s.verdicts != [] && s.verdicts[0] ==>
              s.file == Some(s.prod.received) && |s.prod.received| == total
  {
    ReachableInv(total, disk, run);
  }

  /** Bytes received but not yet offered to the ring. */
  function InFlight(p: Producer): seq<Byte> {
    if p.pc == TestFail || p.pc == Store then p.chunk else []
  }

  /** Conservation: while the transfer runs and nothing has failed, the received bytes are the
      file, then the staged bytes, then the ring, then the chunk in hand. */
  lemma ReceivedBytesAreConserved(total: nat, disk: Option<seq<Byte>>, run: seq<Action>)
    requires 1 <= total < INT_LIMIT
    ensures var s := Exec(Start(total, disk), run);
            s.trap == NoTrap && s.verdicts == [] && !Doomed(s) ==>
              && StagingInBounds(s.cons) && s.ring.Some? && (s.cons.isOpen ==> s.file.Some?)
              && s.prod.received == (if s.cons.isOpen then s.file.value else [])
                                    + Staged(s.cons) + Contents(s.ring.value) + InFlight(s.prod)
  {
    ReachableInv(total, disk, run);
  }

  /** In the domain every ring read the file task makes finds room for all that is stored, so
      it empties the ring, meets the ring's contract and stays inside the staging buffer. */
  lemma EveryReadDrains(total: nat, disk: Option<seq<Byte>>, run: seq<Action>)
    requires 1 <= total <= READ_FILE_PACKET_SIZE
    ensures var s := Exec(Start(total, disk), run);
            s.trap == NoTrap && s.cons.pc == Drain ==>
              && s.ring.Some? && Coherent(s.ring.value)
              && |Contents(s.ring.value)| <= s.cons.bufferLengthFree
              && ReadContract(s.ring.value, s.cons.bufferLengthFree)
              && s.cons.dataBuffer.Some?
              && 0 <= s.cons.p
              && s.cons.p + |Contents(s.ring.value)| <= |s.cons.dataBuffer.value|
              && (var t := DrainNext(s);
                  && t.trap == NoTrap && t.ring.Some? && Contents(t.ring.value) == []
                  && t.cons.pc == Advance(|Contents(s.ring.value)|))
  {
    ReachableInv(total, disk, run);
    var s := Exec(Start(total, disk), run);
    if s.trap == NoTrap && s.cons.pc == Drain {
      RoomForTheRing(s);
      LargeReadDrains(s.ring.value, s.cons.bufferLengthFree);
    }
  }

  /** At most one report; it comes after the receiving function has returned with every byte
      received, nothing moves after it, and it leaves the globals cleared. At all times, the
      report included, a file that the transfer did not open is as it was; a failed transfer
      leaves no file that it did open. */
  lemma OneVerdictAfterTheLastByte(total: nat, disk: Option<seq<Byte>>, run: seq<Action>, more: seq<Action>)
    requires 1 <= total < INT_LIMIT
    ensures var s := Exec(Start(total, disk), run);
            && |s.verdicts| <= 1
            && (s.cons.pc == Verdict && s.trap == NoTrap ==> s.prod.pc == Returned)
            && (!s.created ==> s.file == disk)
            && (s.verdicts != [] ==>
                  && s.prod.pc == Returned && |s.prod.received| == total
                  && Exec(Start(total, disk), run + more) == s
                  && !s.transmitting && s.flags == NO_FLAGS && s.total == 0 && s.ring == None
                  && (!s.verdicts[0] && s.created ==> s.file == None))
  {
    ReachableInv(total, disk, run);
    ExecConcat(Start(total, disk), run, more);
    ExecKeepsInv(Exec(Start(total, disk), run), more);
    FileUntouched(Start(total, disk), disk, run);
  }

  /** The file is as `disk` until it is opened. */
  predicate Untouched(s: State, disk: Option<seq<Byte>>) {
    (s.cons.isOpen ==> s.created) && (!s.created ==> s.file == disk)
  }

  lemma {:induction false} FileUntouched(s: State, disk: Option<seq<Byte>>, run: seq<Action>)
    requires Untouched(s, disk)
    ensures Untouched(Exec(s, run), disk)
    decreases |run|
  {
    hide Next;
    if run != [] {
      NextUntouched(s, disk, run[0]);
      FileUntouched(Next(s, run[0]), disk, run[1..]);
    }
  }

  lemma NextUntouched(s: State, disk: Option<seq<Byte>>, a: Action)
    requires Untouched(s, disk)
    ensures Untouched(Next(s, a), disk)
  {
    hide WriteRing, ReadRing, Missing, Splice, Zeros;
    if s.cons.pc == Drain {
      hide OpenNext, AllocateNext, AdvanceNext, FlushNext, VerdictNext;
    } else {
      hide DrainNext;
    }
  }

  /** The failure flag is set, and neither task is between its test of it and the step that the
      test lets through. */
  predicate Stopped(s: State) {
    s.fail && s.cons.pc != Open && s.prod.pc != Store && s.prod.pc != Signal(true)
  }

  /** Failure stops the work: no file is opened any more, no chunk enters the ring, and success
      is not signalled. */
  lemma {:induction false} FailureStopsWork(s: State, run: seq<Action>)
    requires Stopped(s)
    ensures var t := Exec(s, run);
            && Stopped(t) && t.created == s.created && t.pushed == s.pushed
            && (t.flags.success ==> s.flags.success)
    decreases |run|
  {
    hide Next;
    if run != [] {
      StaysStopped(s, run[0]);
      FailureStopsWork(Next(s, run[0]), run[1..]);
    }
  }

  predicate StepStops(s: State, t: State) {
    && Stopped(t) && t.created == s.created && t.pushed == s.pushed
    && (t.flags.success ==> s.flags.success)
  }

  lemma StaysStopped(s: State, a: Action)
    requires Stopped(s)
    ensures StepStops(s, Next(s, a))
  {
    hide ProducerNext, ConsumerNext;
    match a
    case ProducerStep(input) => ProducerStaysStopped(s, input);
    case ConsumerStep(ok, appended, reported) => ConsumerStaysStopped(s, ok, appended, reported);
  }

  lemma ProducerStaysStopped(s: State, input: seq<Byte>)
    requires Stopped(s)
    ensures StepStops(s, ProducerNext(s, input))
  {
    hide StoreNext, Missing;
  }

  lemma ConsumerStaysStopped(s: State, ok: bool, appended: nat, reported: nat)
    requires Stopped(s)
    ensures StepStops(s, ConsumerNext(s, ok, appended, reported))
  {
    hide ReadRing, Splice, Zeros, OpenNext;
    if s.cons.pc == Drain {
      hide AllocateNext, AdvanceNext, FlushNext, VerdictNext;
    } else {
      hide DrainNext;
    }
  }

  /** A success is never reported after any step has failed: the failure flag, once set, stays. */
  lemma {:induction false} FailureIsFinal(s: State, run: seq<Action>)
    requires Inv(s) && s.verdicts == [] && s.fail
    ensures var t := Exec(s, run); t.verdicts == [] || t.verdicts == [false]
    decreases |run|
  {
    hide Next, Inv;
    if run != [] {
      NextKeepsInv(s, run[0]);
      HistoryStep(s, run[0]);
      var t := Next(s, run[0]);
      if t.verdicts == [] {
        FailureIsFinal(t, run[1..]);
      } else {
        ExecKeepsInv(t, run[1..]);
      }
    }
  }

  /** What any step does to the total announced, the failure flag and the reports. */
  lemma HistoryStep(s: State, a: Action)
    ensures var t := Next(s, a);
            && t.announced == s.announced
            && (s.fail ==> t.fail)
            && (t.verdicts == s.verdicts || t.verdicts == s.verdicts + [!s.fail])
  {
    hide WriteRing, ReadRing;
    match a
    case ProducerStep(input) =>
    case ConsumerStep(ok, appended, reported) => HistoryConsumerStep(s, ok, appended, reported);
  }

  lemma HistoryConsumerStep(s: State, ok: bool, appended: nat, reported: nat)
    ensures var t := ConsumerNext(s, ok, appended, reported);
            && t.announced == s.announced
            && (s.fail ==> t.fail)
            && (t.verdicts == s.verdicts || t.verdicts == s.verdicts + [!s.fail])
  {
    hide WriteRing, ReadRing;
    if s.cons.pc == Drain {
      hide OpenNext, AllocateNext, AdvanceNext, FlushNext, VerdictNext, Splice;
    } else {
      hide DrainNext, Zeros;
    }
  }
}
