/** One file transfer of the file demo: the receiving function (`sRecvProcesser`), the file
    task (`sTask_FsHandeProcesser`) and the globals they share, as a state machine.

    Each action is one step of one of the two tasks. A step makes at most one access to shared
    data that the other task can change: the ring operation is one step because the mutex covers
    it, and so is the flag wait, which returns and clears the flags. Everything the environment
    decides (bytes the UART delivers, whether `fopen` and `malloc` succeed, what `fwrite` does)
    is a field of the action, so a run is a sequence of actions and a statement about all
    sequences is one about all interleavings and all environments. An action whose task cannot
    move leaves the state unchanged. */
module Transfer {
  import opened Bytes
  import opened ReceiveRing

  const RECV_LEN := 50
  const READ_FILE_PACKET_SIZE := 131072
  const UINT_MODULUS := 0x1_0000_0000
  const INT_LIMIT := 0x8000_0000

  datatype Flags = Flags(sync: bool, success: bool, failed: bool)

  const NO_FLAGS := Flags(false, false, false)

  /** Where the receiving function stands. */
  datatype ProducerPc =
    | Fetch        // about to read the UART
    | TestFail     // about to test `bFail`
    | Store        // about to write the chunk to the ring
    | RaiseFail    // the write was refused: about to set `bFail`
    | TestTotal    // about to compare the received count with the total
    | Announce     // all bytes received: about to test `bFail`
    | Signal(ok: bool)  // about to set the SUCCESS or the FAIL flag
    | Returned

  /** Where the file task stands. */
  datatype ConsumerPc =
    | Wait         // in `sAPI_FlagWait`
    | TestState    // about to test `gbFileTransmitting` and `bFail`
    | Open         // about to open the file when it is not open
    | Allocate     // about to allocate the staging buffer when there is none
    | Drain        // top of the do/while: about to read the ring
    | Advance(ret: int)  // the ring read returned `ret`
    | Flush        // about to write the staged bytes to the file
    | Conclude     // after the do/while
    | Verdict      // about to report

  datatype Producer = Producer(pc: ProducerPc, received: seq<Byte>, chunk: seq<Byte>)

  datatype Consumer = Consumer(
    pc: ConsumerPc,
    flags: Flags,
    bufferLength: nat,
    bufferLengthFree: int,
    dataBuffer: Option<seq<Byte>>,
    p: int,
    cleared: bool,
    totalWriteLen: nat,
    isOpen: bool)

  /** A step with no defined result in C, after which nothing is claimed. */
  datatype Trap = NoTrap | NullStaging | OutOfBounds

  datatype State = State(
    // globals
    total: nat,               // gfile_len_total
    transmitting: bool,       // gbFileTransmitting
    fail: bool,               // bFail
    flags: Flags,             // gReceiveDataPreparedFlagRef
    ring: Option<Ring>,       // pRXDataBuffer, pDataR, pDataW, rxDataFreeSize
    // the two tasks and the file
    prod: Producer,
    cons: Consumer,
    file: Option<seq<Byte>>,  // the file named by gpReceiveFileDes; None when there is none
    trap: Trap,
    // history
    announced: nat,           // the total at the start
    pushed: seq<Byte>,        // bytes the ring accepted
    flushed: seq<Byte>,       // bytes handed to `fwrite`
    created: bool,            // `fopen` has succeeded
    verdicts: seq<bool>)      // reports so far; true is success

  datatype Action =
    | ProducerStep(input: seq<Byte>)
    | ConsumerStep(ok: bool, appended: nat, reported: nat)

  /** The state that the set-up in `FsDemo` leaves when it calls `sRecvProcesser`, for a fresh
      file task; `disk` is what the file held before. */
  function Start(total: nat, disk: Option<seq<Byte>>): State {
    State(total, true, false, NO_FLAGS, Some(EmptyRing()),
          Producer(Fetch, [], []),
          Consumer(Wait, NO_FLAGS, 0, 0, None, 0, true, 0, false),
          disk, NoTrap, total, [], [], false, [])
  }

  // ---------------------------------------------------------------------------
  // The receiving function
  // ---------------------------------------------------------------------------

  /** `gfile_len_total - receivedLength`, an unsigned difference in C. */
  function Missing(s: State): nat {
    (s.total - |s.prod.received|) % UINT_MODULUS
  }

  /** The number of bytes the receiving function asks the UART for. */
  function Requested(s: State): nat {
    if Missing(s) > RECV_LEN then RECV_LEN else Missing(s)
  }

  function RaiseSync(f: Flags, sync: bool): Flags {
    if sync then f.(sync := true) else f
  }

  /** The ring write and the test of its result. */
  function StoreNext(s: State, o: WriteOutcome): State {
    var refused := o.ret < 0 || o.ret != |s.prod.chunk| || |s.prod.received| > s.total;
    s.(ring := Some(o.ring),
       flags := RaiseSync(s.flags, o.sync),
       pushed := if o.ret < 0 then s.pushed else s.pushed + s.prod.chunk,
       prod := s.prod.(pc := if refused then RaiseFail else TestTotal))
  }

  function ProducerNext(s: State, input: seq<Byte>): State {
    match s.prod.pc
    case Fetch =>
      var datalen := Requested(s);
      if datalen > 0 then
        var chunk := if |input| <= datalen then input else input[..datalen];
        s.(prod := Producer(TestFail, s.prod.received + chunk, chunk))
      else
        s.(prod := s.prod.(pc := Returned))
    case TestFail =>
      s.(prod := s.prod.(pc := if s.fail then TestTotal else Store))
    case Store =>
      (match s.ring
       case None => s.(prod := s.prod.(pc := RaiseFail))
       case Some(g) => StoreNext(s, WriteRing(g, s.prod.chunk)))
    case RaiseFail =>
      s.(fail := true, prod := s.prod.(pc := TestTotal))
    case TestTotal =>
      s.(fail := s.fail || |s.prod.received| > s.total,
         prod := s.prod.(pc := if |s.prod.received| >= s.total then Announce else Fetch))
    case Announce =>
      s.(prod := s.prod.(pc := Signal(!s.fail)))
    case Signal(ok) =>
      s.(flags := if ok then s.flags.(success := true) else s.flags.(failed := true),
         prod := s.prod.(pc := Returned))
    case Returned => s
  }

  // ---------------------------------------------------------------------------
  // The file task
  // ---------------------------------------------------------------------------

  function At(s: State, pc: ConsumerPc): State {
    s.(cons := s.cons.(pc := pc))
  }

  function OpenNext(s: State, ok: bool): State {
    if s.cons.isOpen then At(s, Allocate)
    else if ok then
      s.(cons := s.cons.(pc := Allocate, isOpen := true), file := Some([]), created := true)
    else At(s, Allocate).(fail := true)
  }

  function AllocateNext(s: State, ok: bool): State {
    if s.cons.dataBuffer.Some? then At(s, Drain)
    else
      var length: nat := if s.total < READ_FILE_PACKET_SIZE then s.total else READ_FILE_PACKET_SIZE;
      if !ok then s.(fail := true, trap := NullStaging)  // memset through the null pointer
      else
        s.(cons := s.cons.(pc := Drain, bufferLength := length, bufferLengthFree := length,
                           dataBuffer := Some(Zeros(length)), p := 0))
  }

  /** The ring read into the staging buffer. A copy that would leave the buffer, or that goes
      through the stale pointer after the buffer was freed, is a trap. */
  function DrainNext(s: State): State {
    match s.ring
    case None => s.(cons := s.cons.(cleared := true, pc := Advance(-1)))
    case Some(g) => CopyNext(s, ReadRing(g, s.cons.bufferLengthFree))
  }

  function CopyNext(s: State, o: ReadOutcome): State {
    var c := s.cons.(cleared := true);
    match o
    case BadCopy => s.(trap := OutOfBounds)
    case Done(g', ret, out, sync) =>
      var t := s.(ring := Some(g'), flags := RaiseSync(s.flags, sync));
      if out == [] then t.(cons := c.(pc := Advance(ret)))
      else if c.dataBuffer.None? || c.p < 0 || c.p + |out| > |c.dataBuffer.value| then
        t.(trap := OutOfBounds)
      else
        t.(cons := c.(pc := Advance(ret), dataBuffer := Some(Splice(c.dataBuffer.value, c.p, out))))
  }

  function AdvanceNext(s: State, ret: int): State {
    var c := s.cons;
    var remains := ret >= 0 && ret > c.bufferLengthFree;
    var n := if remains then ret - 1 else ret;
    var cleared := if remains && c.flags.success then false else c.cleared;
    var free := c.bufferLengthFree - n;
    var flush := n >= 0 && (free == 0
                            || (c.flags.success && cleared && free < c.bufferLength)
                            || (c.flags.failed && free < c.bufferLength));
    s.(fail := s.fail || ret < 0,
       cons := c.(p := c.p + n, bufferLengthFree := free, cleared := cleared,
                  pc := if flush then Flush else if cleared then Conclude else Drain))
  }

  /** `fwrite` of the staged bytes. It returns any number; the file takes all the bytes when it
      returns their count, and some prefix of them otherwise. Without a file nothing is stored. */
  function FlushNext(s: State, appended: nat, reported: nat): State {
    var c := s.cons;
    var n := c.bufferLength - c.bufferLengthFree;
    if c.dataBuffer.None? || n < 0 || n > |c.dataBuffer.value| then s.(trap := OutOfBounds)
    else
      var data := c.dataBuffer.value[..n];
      var written := reported % UINT_MODULUS;
      var stored := if written == n || appended > n then data else data[..appended];
      s.(file := if c.isOpen && s.file.Some? then Some(s.file.value + stored) else s.file,
         fail := s.fail || written != n,
         flushed := s.flushed + data,
         cons := c.(dataBuffer := None, bufferLengthFree := c.bufferLength,
                    totalWriteLen := (c.totalWriteLen + written) % UINT_MODULUS,
                    pc := if c.cleared then Conclude else Drain))
  }

  /** The report and the clean-up. The receiving function has returned by now
      (`TransferSafety.OneVerdictAfterTheLastByte`), so nothing can come between its parts. */
  function VerdictNext(s: State): State {
    s.(file := if s.fail && s.cons.isOpen then None else s.file,
       verdicts := s.verdicts + [!s.fail],
       total := 0, ring := None, transmitting := false, flags := NO_FLAGS,
       cons := s.cons.(pc := Wait, isOpen := false, totalWriteLen := 0, flags := s.flags))
  }

  function ConsumerNext(s: State, ok: bool, appended: nat, reported: nat): State {
    match s.cons.pc
    case Wait =>
      if s.flags == NO_FLAGS then s
      else s.(flags := NO_FLAGS, cons := s.cons.(pc := TestState, flags := s.flags))
    case TestState =>
      At(s, if !s.transmitting then Wait else if s.fail then Conclude else Open)
    case Open => OpenNext(s, ok)
    case Allocate => AllocateNext(s, ok)
    case Drain => DrainNext(s)
    case Advance(ret) => AdvanceNext(s, ret)
    case Flush => FlushNext(s, appended, reported)
    case Conclude =>
      if s.cons.flags.success || s.cons.flags.failed then
        At(s, Verdict).(fail := s.fail || s.cons.totalWriteLen != s.total)
      else At(s, Wait)
    case Verdict => VerdictNext(s)
  }

  // ---------------------------------------------------------------------------
  // Runs
  // ---------------------------------------------------------------------------

  function Next(s: State, a: Action): State {
    if s.trap != NoTrap then s
    else
      match a
      case ProducerStep(input) => ProducerNext(s, input)
      case ConsumerStep(ok, appended, reported) => ConsumerNext(s, ok, appended, reported)
  }

  function Exec(s: State, run: seq<Action>): State
    decreases |run|
  {
    if run == [] then s else Exec(Next(s, run[0]), run[1..])
  }

  /** A UART read that delivers all that is asked for, as `UartRead` does when it is told to
      wait. */
  predicate FullRead(s: State, a: Action) {
    a.ProducerStep? && s.prod.pc == Fetch ==> |a.input| == Requested(s)
  }

  /** Every UART read of the run is a full one. */
  predicate FullReads(s: State, run: seq<Action>)
    decreases |run|
  {
    run != [] ==> FullRead(s, run[0]) && FullReads(Next(s, run[0]), run[1..])
  }
}
