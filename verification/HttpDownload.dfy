/** The HTTP arm of `demo_AppDownload`: collect the response head, then copy the body to the
    application package, from whatever fragments the socket delivers. */
module HttpDownload {
  import opened Bytes
  import opened CString
  import opened HttpHead

  /** One call of the read function and, where the code then stores bytes, of the package
      write: whether the read fails, whether the socket error then asks to try again, how many
      bytes the network has ready at most, and whether the write succeeds. */
  datatype Turn = Turn(failed: bool, again: bool, bytes: nat, stored: bool)

  datatype Exit =
    | Success
    | RecvErr
    | FileNotExist
    | OpenFailed
    | WriteFailed
    | OutOfRange  // a scan or a read that leaves the receive buffer

  /** Where a download stands between two turns: in the first loop with `got` bytes in the
      buffer, in the second with the bytes up to `pos` read and `image` stored, or at its end. */
  datatype Progress =
    | Scanning(got: nat)
    | Copying(pos: nat, contentlen: int, image: seq<Byte>)
    | Ended(exit: Exit, image: seq<Byte>)

  predicate InStream(stream: seq<Byte>, p: Progress) {
    match p
    case Scanning(got) => got <= |stream| && got <= BUF_SIZE
    case Copying(pos, contentlen, image) => pos <= |stream| && |image| < contentlen
    case Ended(_, _) => true
  }

  /** Return value of the read for room of `size` bytes, `avail` bytes before the stream ends. */
  function ReadResult(t: Turn, size: nat, avail: nat): (ret: int)
    ensures ret <= size && ret <= avail
  {
    if t.failed then -1
    else if t.bytes <= size && t.bytes <= avail then t.bytes
    else if size <= avail then size
    else avail
  }

  /** The receive buffer after the first `got` bytes of the stream. */
  function Buffer(stream: seq<Byte>, got: nat): (mem: seq<Byte>)
    requires got <= |stream| && got <= BUF_SIZE
    ensures |mem| == BUF_SIZE
  {
    stream[..got] + Zeros(BUF_SIZE - got)
  }

  /** Room the second loop asks for. */
  function CopySize(contentlen: int, image: seq<Byte>): nat
    requires |image| < contentlen
  {
    if contentlen - |image| > BUF_SIZE then BUF_SIZE else contentlen - |image|
  }

  /** The read of a turn. */
  function ReadOf(stream: seq<Byte>, p: Progress, t: Turn): int
    requires InStream(stream, p) && !p.Ended?
  {
    match p
    case Scanning(got) => ReadResult(t, BUF_SIZE - got, |stream| - got)
    case Copying(pos, contentlen, image) => ReadResult(t, CopySize(contentlen, image), |stream| - pos)
  }

  /** The test at the top of the second loop; a count beyond the length would make a read of
      negative size. */
  function Settle(pos: nat, contentlen: int, image: seq<Byte>): Progress {
    if |image| == contentlen then Ended(Success, image)
    else if contentlen < |image| then Ended(OutOfRange, image)
    else Copying(pos, contentlen, image)
  }

  /** Between the loops: the lengths, the package, the body bytes that came with the head.
      `opens` tells whether the package can be opened, `stored` whether the write succeeds. */
  function StartBody(stream: seq<Byte>, got: nat, opens: bool, stored: bool): (p: Progress)
    requires got <= |stream| && got <= BUF_SIZE
    ensures InStream(stream, p)
  {
    match ParseHead(Buffer(stream, got))
    case Wild => Ended(OutOfRange, [])
    case Parsed(head, len, mem) =>
      if head < 0 || len <= 0 then Ended(FileNotExist, [])
      else if !opens then Ended(OpenFailed, [])
      else if got - head > 0 && !stored then Ended(WriteFailed, [])
      else Settle(got, len, if got - head > 0 then mem[head..got] else [])
  }

  /** A turn of the first loop: read until the buffer holds a head. */
  function ScanTurn(stream: seq<Byte>, got: nat, opens: bool, t: Turn): (p: Progress)
    requires got <= |stream| && got <= BUF_SIZE
    ensures InStream(stream, p)
  {
    var ret := ReadOf(stream, Scanning(got), t);
    if ret <= 0 then
      if t.again then Scanning(got) else Ended(RecvErr, [])
    else
      match HeadEnd(Buffer(stream, got + ret))
      case Overrun => Ended(OutOfRange, [])
      case Absent => Scanning(got + ret)
      case Found(_) => StartBody(stream, got + ret, opens, t.stored)
  }

  /** A turn of the second loop. `packeglen` is the length of `image`. */
  function CopyTurn(stream: seq<Byte>, pos: nat, contentlen: int, image: seq<Byte>, t: Turn): (p: Progress)
    requires InStream(stream, Copying(pos, contentlen, image))
    ensures InStream(stream, p)
  {
    var ret := ReadOf(stream, Copying(pos, contentlen, image), t);
    if ret < 0 then
      if t.again then Copying(pos, contentlen, image) else Ended(RecvErr, image)
    else if !t.stored then Ended(WriteFailed, image)
    else Settle(pos + ret, contentlen, image + stream[pos..pos + ret])
  }

  function TakeTurn(stream: seq<Byte>, opens: bool, p: Progress, t: Turn): (p': Progress)
    requires InStream(stream, p)
    ensures InStream(stream, p')
  {
    match p
    case Scanning(got) => ScanTurn(stream, got, opens, t)
    case Copying(pos, contentlen, image) => CopyTurn(stream, pos, contentlen, image, t)
    case Ended(_, _) => p
  }

  function Run(stream: seq<Byte>, opens: bool, p: Progress, turns: seq<Turn>): (p': Progress)
    requires InStream(stream, p)
    ensures InStream(stream, p')
    decreases |turns|
  {
    if turns == [] then p else Run(stream, opens, TakeTurn(stream, opens, p, turns[0]), turns[1..])
  }

  /** The whole download. */
  function Downloaded(stream: seq<Byte>, opens: bool, turns: seq<Turn>): (p: Progress)
    ensures InStream(stream, p)
  {
    Run(stream, opens, Scanning(0), turns)
  }

  /** The bytes stored in the package so far. */
  function Image(p: Progress): seq<Byte> {
    if p.Scanning? then [] else p.image
  }

  lemma {:induction false} EndedStays(stream: seq<Byte>, opens: bool, p: Progress, turns: seq<Turn>)
    requires p.Ended?
    ensures Run(stream, opens, p, turns) == p
    decreases |turns|
  {
    if turns != [] {
      EndedStays(stream, opens, p, turns[1..]);
    }
  }

  /** The first of the turns that are left. */
  lemma RunOneTurn(stream: seq<Byte>, opens: bool, p: Progress, turns: seq<Turn>, k: nat)
    requires InStream(stream, p) && k < |turns|
    ensures Run(stream, opens, p, turns[k..])
            == Run(stream, opens, TakeTurn(stream, opens, p, turns[k]), turns[k + 1..])
  {
    assert turns[k..][0] == turns[k] && turns[k..][1..] == turns[k + 1..];
  }

  // ---------------------------------------------------------------------------
  // The loops themselves
  // ---------------------------------------------------------------------------

  /** The read function: `ret` bytes of the stream at `pos` are put at `recvbuf + at`. */
  method Receive(stream: seq<Byte>, pos: nat, recvbuf: array<Byte>, at: nat, size: nat, t: Turn) returns (ret: int)
    requires pos <= |stream| && at + size <= recvbuf.Length
    modifies recvbuf
    ensures ret == ReadResult(t, size, |stream| - pos)
    ensures recvbuf[..] == if ret > 0 then Splice(old(recvbuf[..]), at, stream[pos..pos + ret]) else old(recvbuf[..])
  {
    ret := ReadResult(t, size, |stream| - pos);
    if ret > 0 {
      forall i | 0 <= i < ret {
        recvbuf[at + i] := stream[pos + i];
      }
    }
  }

  lemma BufferGrows(stream: seq<Byte>, got: nat, ret: nat)
    requires got + ret <= |stream| && got + ret <= BUF_SIZE
    ensures Splice(Buffer(stream, got), got, stream[got..got + ret]) == Buffer(stream, got + ret)
  {
    assert stream[..got] + stream[got..got + ret] == stream[..got + ret];
  }

  /** The first loop. It ends with a head in the buffer, `rebytes` bytes and `k` turns used;
      or with an exit of the whole download, or with no turn left (`exit` None). */
  method AwaitHead(stream: seq<Byte>, opens: bool, turns: seq<Turn>, recvbuf: array<Byte>)
    returns (complete: bool, exit: Option<Exit>, rebytes: nat, k: nat)
    requires recvbuf.Length == BUF_SIZE && recvbuf[..] == Buffer(stream, 0)
    modifies recvbuf
    ensures !complete && exit.Some? ==> Downloaded(stream, opens, turns) == Ended(exit.value, [])
    ensures !complete && exit.None? ==> Downloaded(stream, opens, turns).Scanning?
    ensures complete ==>
              && rebytes <= |stream| && rebytes <= BUF_SIZE && 0 < k <= |turns|
              && recvbuf[..] == Buffer(stream, rebytes)
              && Downloaded(stream, opens, turns) ==
                 Run(stream, opens, StartBody(stream, rebytes, opens, turns[k - 1].stored), turns[k..])
  {
    hide StartBody, Buffer, HeadEnd, Splice, CopyTurn;
    complete, exit, rebytes, k := false, None, 0, 0;
    while k < |turns|
      invariant rebytes <= |stream| && rebytes <= BUF_SIZE && k <= |turns|
      invariant recvbuf[..] == Buffer(stream, rebytes)
      invariant exit == None && Downloaded(stream, opens, turns) == Run(stream, opens, Scanning(rebytes), turns[k..])
    {
      assert turns[k..][0] == turns[k] && turns[k..][1..] == turns[k + 1..];
      var ret := Receive(stream, rebytes, recvbuf, rebytes, BUF_SIZE - rebytes, turns[k]);
      k := k + 1;
      if ret <= 0 {
        if turns[k - 1].again {
          continue;
        }
        EndedStays(stream, opens, Ended(RecvErr, []), turns[k..]);
        return false, Some(RecvErr), rebytes, k;
      }
      BufferGrows(stream, rebytes, ret);
      rebytes := rebytes + ret;
      match HeadEnd(recvbuf[..]) {
        case Overrun =>
          EndedStays(stream, opens, Ended(OutOfRange, []), turns[k..]);
          return false, Some(OutOfRange), rebytes, k;
        case Absent =>
        case Found(_) => return true, None, rebytes, k;
      }
    }
  }

  /** The download, with the receive buffer updated in place; `exit` is None when the turns are
      used up before it has ended. */
  method Download(stream: seq<Byte>, opens: bool, turns: seq<Turn>) returns (exit: Option<Exit>, image: seq<Byte>)
    ensures var p := Downloaded(stream, opens, turns);
            image == Image(p) && exit == if p.Ended? then Some(p.exit) else None
  {
    image := [];
    var recvbuf := new Byte[BUF_SIZE](_ => 0);
    assert recvbuf[..] == Buffer(stream, 0);
    var complete, rebytes, k;
    complete, exit, rebytes, k := AwaitHead(stream, opens, turns, recvbuf);
    if !complete {
      return;
    }
    ghost var rest := turns[k..];
    ghost var start := StartBody(stream, rebytes, opens, turns[k - 1].stored);
    assert Downloaded(stream, opens, turns) == Run(stream, opens, start, rest);
    hide Downloaded, ParseHead, Run, Buffer;
    if start.Ended? {
      EndedStays(stream, opens, start, rest);
    }
    var wild, headlen, contentlen := GetContentLength(recvbuf);
    if wild {
      return Some(OutOfRange), [];
    }
    if headlen < 0 || contentlen <= 0 {
      return Some(FileNotExist), [];
    }
    if !opens {
      return Some(OpenFailed), [];
    }
    if rebytes - headlen > 0 {
      if !turns[k - 1].stored {
        return Some(WriteFailed), [];
      }
      image := recvbuf[..][headlen..rebytes];
    }
    exit, image := CopyBody(stream, opens, rebytes, contentlen, image, turns[k..], recvbuf);
  }

  /** A read of the second loop: the bytes it leaves at the start of the buffer. */
  method ReceiveBody(stream: seq<Byte>, pos: nat, recvbuf: array<Byte>, size: nat, t: Turn)
    returns (ret: int, data: seq<Byte>)
    requires pos <= |stream| && size <= recvbuf.Length
    modifies recvbuf
    ensures ret == ReadResult(t, size, |stream| - pos)
    ensures ret >= 0 ==> data == stream[pos..pos + ret]
  {
    ret := Receive(stream, pos, recvbuf, 0, size, t);
    data := if ret > 0 then recvbuf[..][..ret] else [];
  }

  /** The second loop. */
  method CopyBody(stream: seq<Byte>, ghost opens: bool, start: nat, contentlen: int, first: seq<Byte>,
                  turns: seq<Turn>, recvbuf: array<Byte>)
    returns (exit: Option<Exit>, image: seq<Byte>)
    requires start <= |stream| && recvbuf.Length == BUF_SIZE
    modifies recvbuf
    ensures var p := Run(stream, opens, Settle(start, contentlen, first), turns);
            image == Image(p) && exit == if p.Ended? then Some(p.exit) else None
  {
    hide StartBody, ScanTurn, Buffer, Run;
    ghost var expected := Run(stream, opens, Settle(start, contentlen, first), turns);
    assert turns[0..] == turns;
    image := first;
    var pos: nat, k: nat := start, 0;
    while |image| != contentlen
      invariant pos <= |stream| && k <= |turns|
      invariant expected == Run(stream, opens, Settle(pos, contentlen, image), turns[k..])
      decreases |turns| - k
    {
      if contentlen < |image| {
        EndedStays(stream, opens, Ended(OutOfRange, image), turns[k..]);
        return Some(OutOfRange), image;
      }
      if k == |turns| {
        assert turns[k..] == [];
        NoTurns(stream, opens, Copying(pos, contentlen, image));
        return None, image;
      }
      RunOneTurn(stream, opens, Copying(pos, contentlen, image), turns, k);
      var size := CopySize(contentlen, image);
      var ret, data := ReceiveBody(stream, pos, recvbuf, size, turns[k]);
      k := k + 1;
      if ret < 0 {
        if turns[k - 1].again {
          continue;
        }
        EndedStays(stream, opens, Ended(RecvErr, image), turns[k..]);
        return Some(RecvErr), image;
      }
      if !turns[k - 1].stored {
        EndedStays(stream, opens, Ended(WriteFailed, image), turns[k..]);
        return Some(WriteFailed), image;
      }
      image := image + data;
      pos := pos + ret;
    }
    EndedStays(stream, opens, Ended(Success, image), turns[k..]);
    return Some(Success), image;
  }

  lemma NoTurns(stream: seq<Byte>, opens: bool, p: Progress)
    requires InStream(stream, p)
    ensures Run(stream, opens, p, []) == p
  {
  }
}
