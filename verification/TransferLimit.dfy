/** Beyond one staging buffer (128 KiB) the pipeline is not safe: for every longer transfer
    some interleaving makes the file task copy outside a buffer. */
module TransferLimit {
  import opened Bytes
  import opened ReceiveRing
  import opened Transfer
  import opened TransferSafety

  // Eight rounds of 327 full UART reads leave 272 bytes of staging and the read index at 7920.
  const ROUND := 16350
  const ROUNDS := 8
  const ROOM := 272
  const INDEX := 7920

  // The last push: 252 full reads, enough to wrap the ring.
  const LAST := 12600

  /** Nothing in flight, the ring empty, `k` bytes received and staged. */
  ghost predicate Settled(s: State, k: nat) {
    && s.trap == NoTrap && s.verdicts == [] && s.transmitting && !s.fail
    && s.announced == s.total < INT_LIMIT && s.total > READ_FILE_PACKET_SIZE
    && s.prod.pc == Fetch && |s.prod.received| == k < READ_FILE_PACKET_SIZE
    && s.cons.pc == Wait && s.flags == NO_FLAGS
    && s.ring.Some? && Coherent(s.ring.value)
    && s.ring.value.free == RECV_DATA_BUFFER_SIZE && s.ring.value.r == k % RECV_DATA_BUFFER_SIZE
    && s.cons.bufferLengthFree + k == s.cons.bufferLength
    && (if k == 0 then s.cons.dataBuffer.None?
        else s.cons.isOpen && s.cons.p == k && s.cons.bufferLength == READ_FILE_PACKET_SIZE
             && s.cons.dataBuffer.Some? && |s.cons.dataBuffer.value| == READ_FILE_PACKET_SIZE)
  }

  /** `s` with `n` more bytes received and accepted by the ring. */
  ghost predicate Stored(s: State, t: State, n: nat) {
    && t.trap == NoTrap && t.verdicts == [] && t.transmitting && !t.fail
    && t.total == s.total && t.announced == s.announced && t.cons == s.cons && t.file == s.file
    && |t.prod.received| == |s.prod.received| + n
    && s.ring.Some? && t.ring.Some? && Coherent(t.ring.value)
    && t.ring.value.r == s.ring.value.r && t.ring.value.free + n == s.ring.value.free
    && !t.flags.failed
    && (n > 0 && Signals(t.ring.value) ==> t.flags.sync)
  }

  /** The same, with the receiving function back at its loop or returned. */
  ghost predicate Pushed(s: State, t: State, n: nat) {
    && Stored(s, t, n)
    && (if |t.prod.received| < t.total then t.prod.pc == Fetch && !t.flags.success
        else t.prod.pc == Returned && t.flags.success)
  }

  /** The receiving function ready for the next chunk. */
  ghost predicate Fetching(s: State) {
    && s.trap == NoTrap && s.verdicts == [] && s.transmitting && !s.fail
    && s.total < INT_LIMIT && s.prod.pc == Fetch && |s.prod.received| < s.total
    && s.ring.Some? && Coherent(s.ring.value)
    && !s.flags.failed && !s.flags.success
  }

  /** Two runs of full UART reads, one after the other. */
  lemma {:induction false} Join(s: State, run: seq<Action>, more: seq<Action>)
    requires FullReads(s, run) && FullReads(Exec(s, run), more)
    ensures Exec(s, run + more) == Exec(Exec(s, run), more) && FullReads(s, run + more)
    decreases |run|
  {
    hide Next, FullRead;
    if run == [] {
      assert run + more == more;
    } else {
      assert (run + more)[1..] == run[1..] + more;
      Join(Next(s, run[0]), run[1..], more);
    }
  }

  /** One more action at the end of a run. */
  lemma Then(s: State, run: seq<Action>, t: State, a: Action) returns (run': seq<Action>, t': State)
    requires t == Exec(s, run) && FullReads(s, run) && FullRead(t, a)
    ensures t' == Next(t, a) && t' == Exec(s, run') && FullReads(s, run')
  {
    hide Next, FullRead;
    run' := run + [a];
    t' := Next(t, a);
    assert [a][1..] == [];
    Join(s, run, [a]);
  }

  /** The index side of an accepted write. */
  lemma WriteTakes(g: Ring, data: seq<Byte>)
    requires data != [] && |data| <= g.free
    ensures var o := WriteRing(g, data);
            o.ret == |data| && o.ring.r == g.r && o.ring.free + |data| == g.free && o.sync == Signals(o.ring)
  {
  }

  lemma StoreChunk(s: State, n: nat) returns (run: seq<Action>)
    requires Fetching(s) && n == Requested(s) && n <= s.ring.value.free
    ensures FullReads(s, run)
    ensures Stored(s, Exec(s, run), n)
    ensures Exec(s, run).prod.pc == TestTotal && !Exec(s, run).flags.success
  {
    var a, zeros := ProducerStep(Zeros(n)), Zeros(n);
    RequestedIsMissing(s);
    var o := WriteRing(s.ring.value, zeros);
    WriteAppends(s.ring.value, zeros);
    WriteTakes(s.ring.value, zeros);
    var ready := s.(prod := Producer(Store, s.prod.received + zeros, zeros));
    AcceptedIsStored(s, ready, o, n);
    assert FullRead(ready, a);
    hide *;
    run := ReachStore(s, zeros);
    var t: State;
    run, t := Then(s, run, ready, a);
    StoreIsNext(ready, a.input);
  }

  lemma RequestedIsMissing(s: State)
    requires Fetching(s)
    ensures 1 <= Requested(s) == Min(RECV_LEN, s.total - |s.prod.received|)
  {
  }

  /** The first two steps of a chunk: read the UART, find no failure. */
  lemma ReachStore(s: State, chunk: seq<Byte>) returns (run: seq<Action>)
    requires Fetching(s) && |chunk| == Requested(s)
    ensures FullReads(s, run)
    ensures Exec(s, run) == s.(prod := Producer(Store, s.prod.received + chunk, chunk))
  {
    RequestedIsMissing(s);
    hide WriteRing, StoreNext, ConsumerNext, Requested;
    var t, a := s, ProducerStep(chunk);
    run := [];
    run, t := Then(s, run, t, a);
    run, t := Then(s, run, t, a);
  }

  lemma StoreIsNext(s: State, input: seq<Byte>)
    requires s.trap == NoTrap && s.prod.pc == Store && s.ring.Some?
    ensures Next(s, ProducerStep(input)) == StoreNext(s, WriteRing(s.ring.value, s.prod.chunk))
  {
  }

  lemma AcceptedIsStored(s: State, ready: State, o: WriteOutcome, n: nat)
    requires Fetching(s) && 1 <= n && |s.prod.received| + n <= s.total
    requires |ready.prod.chunk| == n && |ready.prod.received| == |s.prod.received| + n
    requires ready == s.(prod := ready.prod)
    requires o.ret == n && Coherent(o.ring) && o.sync == Signals(o.ring)
    requires o.ring.r == s.ring.value.r && o.ring.free + n == s.ring.value.free
    ensures var t := StoreNext(ready, o);
            Stored(s, t, n) && t.prod.pc == TestTotal && !t.flags.success
  {
  }

  /** One chunk: all that the receiving function asks for. */
  lemma PushChunk(s: State, n: nat) returns (run: seq<Action>)
    requires Fetching(s) && n == Requested(s) && n <= s.ring.value.free
    ensures FullReads(s, run) && Pushed(s, Exec(s, run), n)
  {
    run := StoreChunk(s, n);
    var t := Exec(s, run);
    RequestedIsMissing(s);
    hide Exec, ConsumerNext, Coherent, StoreNext, Requested, FullReads;
    var a := ProducerStep([]);
    run, t := Then(s, run, t, a);
    if t.prod.pc == Announce {
      run, t := Then(s, run, t, a);
      run, t := Then(s, run, t, a);
    }
  }

  /** A number of bytes that the ring can take: full chunks, or up to the end. */
  lemma {:induction false} Push(s: State, n: nat) returns (run: seq<Action>)
    requires Fetching(s) && 1 <= n <= s.ring.value.free && |s.prod.received| + n <= s.total
    requires n % RECV_LEN == 0 || |s.prod.received| + n == s.total
    ensures FullReads(s, run) && Pushed(s, Exec(s, run), n)
    decreases n
  {
    RequestedIsMissing(s);
    if n <= RECV_LEN {
      run := PushChunk(s, n);
    } else {
      run := PushChunk(s, RECV_LEN);
      var t := Exec(s, run);
      var rest := Push(t, n - RECV_LEN);
      Join(s, run, rest);
      run := run + rest;
    }
  }

  const GO := ConsumerStep(true, 0, 0)

  /** The file task about to read, with `k` bytes staged. */
  ghost predicate AtDrain(s: State, t: State, k: nat) {
    && t == s.(cons := t.cons, flags := NO_FLAGS, file := t.file, created := t.created)
    && t.cons.pc == Drain && t.cons.flags == s.flags && t.cons.isOpen
    && t.cons.bufferLength == READ_FILE_PACKET_SIZE
    && t.cons.bufferLengthFree + k == READ_FILE_PACKET_SIZE
    && t.cons.p == k
    && t.cons.dataBuffer.Some? && |t.cons.dataBuffer.value| == READ_FILE_PACKET_SIZE
  }

  /** From the flag wait to the ring read. */
  lemma WakeUp(s: State, t: State, k: nat, n: nat) returns (run: seq<Action>)
    requires Settled(s, k) && Stored(s, t, n) && t.flags != NO_FLAGS
    ensures FullReads(t, run) && AtDrain(t, Exec(t, run), k)
  {
    run := [];
    var u := t;
    hide Coherent, Exec, DrainNext, AdvanceNext, FlushNext, VerdictNext, ProducerNext;
    assert u == Exec(t, []) by { EmptyRun(t); }
    run, u := Then(t, run, u, GO);
    run, u := Then(t, run, u, GO);
    assert u.cons.pc == Open;
    run, u := Then(t, run, u, GO);
    assert u.cons.pc == Allocate;
    run, u := Then(t, run, u, GO);
  }

  lemma EmptyRun(s: State)
    ensures Exec(s, []) == s
  {
  }

  /** Receive `n` more bytes, let the file task stage them all. */
  lemma Round(s: State, k: nat, n: nat) returns (run: seq<Action>)
    requires Settled(s, k) && SYNC_THRESHOLD < n < RECV_DATA_BUFFER_SIZE && k + n < READ_FILE_PACKET_SIZE
    requires n % RECV_LEN == 0
    ensures FullReads(s, run) && Settled(Exec(s, run), k + n)
  {
    hide Coherent, Contents, Exec, Next, FullReads;
    run := Push(s, n);
    var t := Exec(s, run);
    var wake := WakeUp(s, t, k, n);
    var u := Exec(t, wake);
    Join(s, run, wake);
    var stage := StageAll(t, u, k, n);
    Join(s, run + wake, stage);
    run := run + wake + stage;
  }

  lemma StageAll(t: State, u: State, k: nat, n: nat) returns (run: seq<Action>)
    requires AtDrain(t, u, k) && t.trap == NoTrap && t.verdicts == [] && t.transmitting && !t.fail
    requires t.ring.Some? && Coherent(t.ring.value) && !t.flags.success && !t.flags.failed
    requires t.ring.value.free + n == RECV_DATA_BUFFER_SIZE && 0 < n < RECV_DATA_BUFFER_SIZE
    requires k + n < READ_FILE_PACKET_SIZE
    ensures FullReads(u, run)
    ensures var v := Exec(u, run);
            && v == u.(ring := v.ring, cons := v.cons)
            && v.ring.Some? && Coherent(v.ring.value) && v.ring.value.free == RECV_DATA_BUFFER_SIZE
            && v.ring.value.r == (t.ring.value.r + n) % RECV_DATA_BUFFER_SIZE
            && v.cons.pc == Wait && v.cons.isOpen && v.cons.bufferLength == READ_FILE_PACKET_SIZE
            && v.cons.bufferLengthFree + k + n == READ_FILE_PACKET_SIZE
            && v.cons.p == k + n
            && v.cons.dataBuffer.Some? && |v.cons.dataBuffer.value| == READ_FILE_PACKET_SIZE
  {
    LargeReadDrains(u.ring.value, u.cons.bufferLengthFree);
    var v := u;
    run := [];
    EmptyRun(u);
    hide ReadRing, Contents, Exec, OpenNext, AllocateNext, FlushNext, VerdictNext, ProducerNext, Splice;
    run, v := Then(u, run, v, GO);
    assert v.cons.pc == Advance(n);
    run, v := Then(u, run, v, GO);
    assert v.cons.pc == Conclude;
    run, v := Then(u, run, v, GO);
  }

  lemma {:induction false} Rounds(total: nat, disk: Option<seq<Byte>>, i: nat) returns (run: seq<Action>)
    requires READ_FILE_PACKET_SIZE < total < INT_LIMIT && i <= ROUNDS
    ensures FullReads(Start(total, disk), run)
    ensures Settled(Exec(Start(total, disk), run), i * ROUND)
  {
    var s := Start(total, disk);
    if i == 0 {
      run := [];
    } else {
      run := Rounds(total, disk, i - 1);
      var more := Round(Exec(s, run), (i - 1) * ROUND, ROUND);
      Join(s, run, more);
      run := run + more;
    }
  }

  /** With 272 bytes of room left and the read index at 7920, fill the ring up to the point
      where its content wraps (the tail is then longer than the room), or to the end of the
      transfer (the do/while then repeats after its buffer was freed). */
  lemma Overrun(s: State) returns (run: seq<Action>)
    requires Settled(s, ROUNDS * ROUND)
    ensures FullReads(s, run) && Exec(s, run).trap == OutOfBounds
  {
    hide FullReads;
    var k := ROUNDS * ROUND;
    var n := if s.total - k < LAST then s.total - k else LAST;
    run := Push(s, n);
    var t := Exec(s, run);
    var wake := WakeUp(s, t, k, n);
    var u := Exec(t, wake);
    Join(s, run, wake);
    var last: seq<Action>;
    if n >= RECV_DATA_BUFFER_SIZE - INDEX {
      last := WrappedCopy(u);
    } else {
      last := StaleCopy(u);
    }
    Join(s, run + wake, last);
    run := run + wake + last;
  }

  lemma WrappedCopy(u: State) returns (run: seq<Action>)
    requires u.trap == NoTrap && u.cons.pc == Drain && u.cons.bufferLengthFree == ROOM
    requires u.ring.Some? && u.ring.value.r == INDEX && Coherent(u.ring.value)
    requires RECV_DATA_BUFFER_SIZE - INDEX <= u.ring.value.Stored() <= LAST
    ensures FullReads(u, run) && Exec(u, run).trap == OutOfBounds
  {
    run := [GO];
    EmptyRun(Next(u, GO));
    assert Exec(u, run) == Exec(Next(u, GO), []);
  }

  lemma StaleCopy(u: State) returns (run: seq<Action>)
    requires u.trap == NoTrap && u.cons.pc == Drain && u.cons.flags.success
    requires u.cons.bufferLengthFree == ROOM && u.cons.bufferLength == READ_FILE_PACKET_SIZE
    requires u.cons.dataBuffer.Some? && |u.cons.dataBuffer.value| == READ_FILE_PACKET_SIZE
    requires u.cons.p == ROUNDS * ROUND
    requires u.ring.Some? && Coherent(u.ring.value) && u.ring.value.r == INDEX
    requires ROOM < u.ring.value.Stored() < RECV_DATA_BUFFER_SIZE - INDEX
    ensures FullReads(u, run) && Exec(u, run).trap == OutOfBounds
  {
    var g := u.ring.value;
    ReadContents(g, ROOM);
    var g' := ReadRing(g, ROOM).ring;
    LargeReadDrains(g', READ_FILE_PACKET_SIZE);
    var v := u;
    run := [];
    EmptyRun(u);
    hide ReadRing, Contents, Exec, VerdictNext, ProducerNext;
    run, v := Then(u, run, v, GO);
    assert v.cons.pc == Advance(ROOM + 1);
    run, v := Then(u, run, v, GO);
    assert v.cons.pc == Flush && v.cons.bufferLengthFree == 0 && !v.cons.cleared;
    run, v := Then(u, run, v, ConsumerStep(true, 0, READ_FILE_PACKET_SIZE));
    assert v.cons.pc == Drain && v.cons.dataBuffer == None && v.ring == Some(g');
    run, v := Then(u, run, v, GO);
  }

  /** The exact limit: a transfer is free of out-of-bounds copies under every interleaving if
      and only if it fits one staging buffer. The limit is the same when every UART read
      delivers all that it is asked for. */
  lemma TrapFreeIffFits(total: nat, disk: Option<seq<Byte>>)
    requires 1 <= total < INT_LIMIT
    ensures (forall run :: Exec(Start(total, disk), run).trap != OutOfBounds)
            <==> total <= READ_FILE_PACKET_SIZE
    ensures (forall run | FullReads(Start(total, disk), run) :: Exec(Start(total, disk), run).trap != OutOfBounds)
            <==> total <= READ_FILE_PACKET_SIZE
  {
    if total <= READ_FILE_PACKET_SIZE {
      forall run
        ensures Exec(Start(total, disk), run).trap != OutOfBounds
      {
        ReachableInv(total, disk, run);
      }
    } else {
      var run := Rounds(total, disk, ROUNDS);
      var last := Overrun(Exec(Start(total, disk), run));
      Join(Start(total, disk), run, last);
      assert FullReads(Start(total, disk), run + last);
    }
  }
}
