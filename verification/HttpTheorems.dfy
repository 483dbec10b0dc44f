/** What the download stores, for every response and every way the network cuts it up. */
module HttpTheorems {
  import opened Bytes
  import opened CString
  import opened HttpHead
  import opened HttpLength
  import opened HttpDownload

  /** What has become of the second loop that started with `image`, the stream from `from` on:
      a piece of the stream is stored without gap or overlap, success comes only at the announced
      length `c`, and the loop never goes past it. */
  ghost predicate Copied(stream: seq<Byte>, from: nat, c: int, image: seq<Byte>, p: Progress) {
    && !p.Scanning? && |image| <= |p.image| <= |stream| - from
    && p.image == stream[from..from + |p.image|]
    && (p.Copying? ==> |p.image| < c)
    && (p.Ended? && p.exit == Success ==> |p.image| == c)
    && (|image| <= c ==> |p.image| <= c)
    && (|image| > c ==> p == Ended(OutOfRange, image))
    && (p.Ended? ==> (p.exit == OutOfRange <==> |p.image| > c)
                     && p.exit != FileNotExist && p.exit != OpenFailed)
  }

  lemma {:induction false} CopyingCopies(
      stream: seq<Byte>, from: nat, pos: nat, c: int, image: seq<Byte>, opens: bool, turns: seq<Turn>)
    requires from <= pos <= |stream| && image == stream[from..pos]
    ensures Copied(stream, from, c, image, Run(stream, opens, Settle(pos, c, image), turns))
    decreases |turns|
  {
    hide ScanTurn, Run, Copied;
    var p := Settle(pos, c, image);
    if p.Ended? {
      EndedStays(stream, opens, p, turns);
      NothingCopied(stream, from, pos, c, image);
    } else if turns == [] {
      NoTurns(stream, opens, p);
      NothingCopied(stream, from, pos, c, image);
    } else {
      var next := TakeTurn(stream, opens, p, turns[0]);
      FirstTurn(stream, opens, p, turns);
      CopyTurnCopies(stream, from, pos, c, image, turns[0]);
      if next.Ended? && (next.exit == RecvErr || next.exit == WriteFailed) {
        EndedStays(stream, opens, next, turns[1..]);
        StoppedCopy(stream, from, pos, c, image, next);
      } else {
        var to: nat := pos + |next.image| - |image|;
        CopyingCopies(stream, from, to, c, next.image, opens, turns[1..]);
        CopiedFurther(stream, from, c, image, next.image, Run(stream, opens, next, turns[1..]));
      }
    }
  }

  lemma FirstTurn(stream: seq<Byte>, opens: bool, p: Progress, turns: seq<Turn>)
    requires InStream(stream, p) && turns != []
    ensures Run(stream, opens, p, turns) == Run(stream, opens, TakeTurn(stream, opens, p, turns[0]), turns[1..])
  {
  }

  lemma NothingCopied(stream: seq<Byte>, from: nat, pos: nat, c: int, image: seq<Byte>)
    requires from <= pos <= |stream| && image == stream[from..pos]
    ensures Copied(stream, from, c, image, Settle(pos, c, image))
  {
  }

  lemma StoppedCopy(stream: seq<Byte>, from: nat, pos: nat, c: int, image: seq<Byte>, p: Progress)
    requires from <= pos <= |stream| && image == stream[from..pos] && |image| < c
    requires p == Ended(RecvErr, image) || p == Ended(WriteFailed, image)
    ensures Copied(stream, from, c, image, p)
  {
  }

  lemma CopiedFurther(stream: seq<Byte>, from: nat, c: int, image: seq<Byte>, more: seq<Byte>, p: Progress)
    requires Copied(stream, from, c, more, p) && |image| <= |more| <= c && |image| < c
    ensures Copied(stream, from, c, image, p)
  {
  }

  /** A turn of the second loop: it stops with nothing stored, or stores the next piece. */
  lemma CopyTurnCopies(stream: seq<Byte>, from: nat, pos: nat, c: int, image: seq<Byte>, t: Turn)
    requires from <= pos <= |stream| && image == stream[from..pos] && |image| < c
    ensures var next := CopyTurn(stream, pos, c, image, t);
            || next == Ended(RecvErr, image) || next == Ended(WriteFailed, image)
            || (&& !next.Scanning? && |image| <= |next.image| <= c
                && var to := pos + |next.image| - |image|;
                   to <= |stream| && next.image == stream[from..to] && next == Settle(to, c, next.image))
  {
    var ret := ReadOf(stream, Copying(pos, c, image), t);
    if ret >= 0 {
      assert image + stream[pos..pos + ret] == stream[from..pos + ret];
    }
  }

  /** The end of the head lies inside what has been received. */
  lemma HeadWithinReceived(stream: seq<Byte>, got: nat)
    requires got <= |stream| && got <= BUF_SIZE && HeadEnd(Buffer(stream, got)).Found?
    ensures HeadEnd(Buffer(stream, got)).at <= got
  {
    var mem := Buffer(stream, got);
    var pat := if StrStr(mem, BLANK_LINE, 0).Found? then BLANK_LINE else ODD_BLANK_LINE;
    var k := StrStr(mem, pat, 0).at;
    StrStrFindsFirst(mem, pat, 0, k);
    var last := mem[k..k + |pat|][|pat| - 1];
    assert last == pat[|pat| - 1] == LF;
    assert mem[k + |pat| - 1] == LF;
  }

  /** A response, of any kind, and a point `got` of it at which its head was complete. */
  ghost predicate StoredByHead(stream: seq<Byte>, got: nat, image: seq<Byte>) {
    && got <= |stream| && got <= BUF_SIZE
    && IsHttp(Buffer(stream, got)) && Status(Buffer(stream, got)) == Some(200)
    && var p := ParseHead(Buffer(stream, got));
    && p.Parsed? && 0 <= p.head <= got && 0 < p.len && p.head + p.len <= |stream|
    && image == stream[p.head..p.head + p.len]
  }

  /** For every byte stream: a successful download has stored exactly as many bytes as the
      length read from some received head of status 200 announces, those that follow that
      head. */
  lemma SuccessStoresAnnouncedBytes(stream: seq<Byte>, opens: bool, turns: seq<Turn>)
    ensures var p := Downloaded(stream, opens, turns);
            p.Ended? && p.exit == Success ==> exists g: nat :: StoredByHead(stream, g, p.image)
  {
    ScanningStores(stream, 0, opens, turns);
  }

  lemma {:induction false} ScanningStores(stream: seq<Byte>, got: nat, opens: bool, turns: seq<Turn>)
    requires got <= |stream| && got <= BUF_SIZE
    ensures var p := Run(stream, opens, Scanning(got), turns);
            p.Ended? && p.exit == Success ==> exists g: nat :: StoredByHead(stream, g, p.image)
    decreases |turns|
  {
    hide StoredByHead, StartBody, HeadEnd, Buffer, CopyTurn;
    if turns != [] {
      var ret := ReadOf(stream, Scanning(got), turns[0]);
      var next := TakeTurn(stream, opens, Scanning(got), turns[0]);
      if next.Scanning? {
        ScanningStores(stream, next.got, opens, turns[1..]);
      } else if ret > 0 && HeadEnd(Buffer(stream, got + ret)).Found? {
        StartBodyStores(stream, got + ret, opens, turns[0].stored, turns[1..]);
      } else {
        EndedStays(stream, opens, next, turns[1..]);
      }
    }
  }

  lemma StartBodyStores(stream: seq<Byte>, got: nat, opens: bool, stored: bool, turns: seq<Turn>)
    requires got <= |stream| && got <= BUF_SIZE && HeadEnd(Buffer(stream, got)).Found?
    ensures var p := Run(stream, opens, StartBody(stream, got, opens, stored), turns);
            !p.Scanning? && (p.Ended? && p.exit == Success ==> StoredByHead(stream, got, p.image))
  {
    hide ParseHead, Buffer, HeadEnd, Run, IsHttp, Status, StartBody, Settle;
    var start, p := StartBody(stream, got, opens, stored), ParseHead(Buffer(stream, got));
    StartBodySettles(stream, got, opens, stored);
    HeadHasStatus200(Buffer(stream, got));
    if start.Ended? && start.exit != Success && start.image == [] {
      EndedStays(stream, opens, start, turns);
    } else {
      CopyingCopies(stream, p.head, got, p.len, stream[p.head..got], opens, turns);
    }
  }

  /** What starts the second loop, or ends the download before it. */
  lemma StartBodySettles(stream: seq<Byte>, got: nat, opens: bool, stored: bool)
    requires got <= |stream| && got <= BUF_SIZE && HeadEnd(Buffer(stream, got)).Found?
    ensures var start, p := StartBody(stream, got, opens, stored), ParseHead(Buffer(stream, got));
            || (start.Ended? && start.exit != Success && start.image == [])
            || (&& p.Parsed? && 0 <= p.head <= got && 0 < p.len
                && start == Settle(got, p.len, stream[p.head..got]))
  {
    HeadWithinReceived(stream, got);
    var p := ParseHead(Buffer(stream, got));
    if p.Parsed? {
      BodyUntouched(stream, got, p);
      assert stream[got..got] == [];
    }
    hide ParseHead, Buffer, HeadEnd;
  }

  lemma HeadHasStatus200(mem: seq<Byte>)
    ensures var p := ParseHead(mem); p.Parsed? && p.head >= 0 ==> IsHttp(mem) && Status(mem) == Some(200)
  {
    hide Status, HeadEnd, LengthField;
  }

  /** The scanner leaves the received body bytes as they are. */
  lemma BodyUntouched(stream: seq<Byte>, got: nat, p: Parsed)
    requires got <= |stream| && got <= BUF_SIZE && p == ParseHead(Buffer(stream, got)) && p.Parsed?
    requires HeadEnd(Buffer(stream, got)).Found? && HeadEnd(Buffer(stream, got)).at <= got
    ensures p.head >= 0 ==> p.head <= got <= |p.mem| && p.mem[p.head..got] == stream[p.head..got]
  {
    if p.head >= 0 {
      var mem := Buffer(stream, got);
      assert p.mem == LowerAll(mem[..p.head]) + mem[p.head..];
      forall i | p.head <= i < got
        ensures p.mem[i] == stream[i]
      {
        assert p.mem[i] == mem[i];
      }
    }
  }

  // ---------------------------------------------------------------------------
  // Responses with a complete head in the buffer
  // ---------------------------------------------------------------------------

  /** The first `h` bytes of the stream are a complete head that fits the receive buffer. */
  ghost predicate HeadAt(stream: seq<Byte>, h: nat) {
    h <= |stream| && h <= BUF_SIZE && IsHead(stream[..h])
  }

  /** No head before `h` bytes are there, and from then on the same. */
  lemma HeadEndOfPrefix(stream: seq<Byte>, h: nat, got: nat)
    requires HeadAt(stream, h) && got <= |stream| && got <= BUF_SIZE
    ensures got < h ==> HeadEnd(Buffer(stream, got)) == Absent
    ensures got >= h ==> HeadEnd(Buffer(stream, got)) == Found(h)
  {
    var head, mem := stream[..h], Buffer(stream, got);
    if got < h {
      assert head[..got] == stream[..got];
      HeadEndNotYet(head, got, BUF_SIZE);
    } else {
      assert mem == head + mem[h..];
      HeadEndFound(head, mem[h..]);
    }
  }

  /** The first `h` bytes of the stream are a complete head of status 200 that fits the receive
      buffer and gives the content length `c`. */
  ghost predicate Announces(stream: seq<Byte>, h: nat, c: int) {
    && HeadAt(stream, h)
    && var head := stream[..h];
    && IsHttp(head) && Status(head) == Some(200)
    && HeadLength(head) == Some(c) && c > 0
  }

  /** The scan of every received prefix: no head before `h` bytes are there, and from then on
      the same head length and content length, whatever part of the body has come with it. */
  lemma PrefixesAgree(stream: seq<Byte>, h: nat, c: int, got: nat)
    requires Announces(stream, h, c) && got <= |stream| && got <= BUF_SIZE
    ensures got < h ==> HeadEnd(Buffer(stream, got)) == Absent
    ensures got >= h ==>
              && HeadEnd(Buffer(stream, got)) == Found(h)
              && ParseHead(Buffer(stream, got)) ==
                 Parsed(h, c, LowerAll(stream[..h]) + Buffer(stream, got)[h..])
  {
    HeadEndOfPrefix(stream, h, got);
    if got >= h {
      var head, mem := stream[..h], Buffer(stream, got);
      assert mem == head + mem[h..];
      ParseDependsOnHeadOnly(head, mem[h..]);
    }
  }

  /** The bytes received when the head was first complete, and whether the store of that turn
      succeeds. */
  datatype Arrival = Arrival(got: nat, stored: bool)

  /** The reads of the first loop alone: what has arrived when the first `h` bytes are all
      there; None when that does not happen. */
  function FirstComplete(stream: seq<Byte>, h: nat, got: nat, turns: seq<Turn>): (a: Option<Arrival>)
    requires got <= |stream| && got <= BUF_SIZE
    ensures a.Some? ==> h <= a.value.got <= |stream| && a.value.got <= BUF_SIZE
    decreases |turns|
  {
    if turns == [] then None
    else
      var ret := ReadResult(turns[0], BUF_SIZE - got, |stream| - got);
      if ret <= 0 then
        if turns[0].again then FirstComplete(stream, h, got, turns[1..]) else None
      else if got + ret >= h then Some(Arrival(got + ret, turns[0].stored))
      else FirstComplete(stream, h, got + ret, turns[1..])
  }

  /** What is stored is always a beginning of the body; success means all of it. With at most
      `c` body bytes in the first arrival the count never passes `c`; with more, and only then,
      the download ends in a read of negative size, having stored all that had arrived. */
  ghost predicate StoresBody(stream: seq<Byte>, h: nat, c: int, opens: bool, a: Option<Arrival>, p: Progress) {
    && h <= |stream| && (a.Some? ==> h <= a.value.got <= |stream|)
    && |Image(p)| <= |stream| - h
    && Image(p) == stream[h..h + |Image(p)|]
    && (p.Ended? && p.exit == Success ==> |p.image| == c)
    && !(p.Ended? && p.exit == FileNotExist)
    && (a.None? ==> Image(p) == [] && !(p.Ended? && p.exit == OutOfRange))
    && (a.Some? && a.value.got <= h + c ==> |Image(p)| <= c && !(p.Ended? && p.exit == OutOfRange))
    && (a.Some? && a.value.got > h + c ==>
          p == if !opens then Ended(OpenFailed, [])
               else if !a.value.stored then Ended(WriteFailed, [])
               else Ended(OutOfRange, stream[h..a.value.got]))
  }

  lemma {:induction false} ScanningStoresBody(
      stream: seq<Byte>, h: nat, c: int, got: nat, opens: bool, turns: seq<Turn>)
    requires Announces(stream, h, c) && got < h
    ensures StoresBody(stream, h, c, opens, FirstComplete(stream, h, got, turns),
                       Run(stream, opens, Scanning(got), turns))
    decreases |turns|
  {
    hide *;
    HeadFits(stream, h, c);
    if turns == [] {
      NothingYet(stream, h, c, got, opens);
    } else {
      var ret := HeadIsAwaited(stream, h, got, opens, turns);
      if ret <= 0 && !turns[0].again {
        EndedStays(stream, opens, Ended(RecvErr, []), turns[1..]);
        NothingStored(stream, h, c, opens, Ended(RecvErr, []));
      } else if ret <= 0 {
        ScanningStoresBody(stream, h, c, got, opens, turns[1..]);
      } else if got + ret < h {
        ScanningStoresBody(stream, h, c, got + ret, opens, turns[1..]);
      } else {
        StartBodyStoresBody(stream, h, c, got + ret, opens, turns[0].stored, turns[1..]);
      }
    }
  }

  lemma NothingYet(stream: seq<Byte>, h: nat, c: int, got: nat, opens: bool)
    requires got <= h <= |stream| && h <= BUF_SIZE
    ensures StoresBody(stream, h, c, opens, FirstComplete(stream, h, got, []), Run(stream, opens, Scanning(got), []))
  {
    NothingStored(stream, h, c, opens, Scanning(got));
  }

  /** A turn of the first loop, when the first `h` bytes are a head. */
  lemma HeadIsAwaited(stream: seq<Byte>, h: nat, got: nat, opens: bool, turns: seq<Turn>) returns (ret: int)
    requires HeadAt(stream, h) && got < h && turns != []
    requires got <= |stream| && got <= BUF_SIZE
    ensures ret == ReadOf(stream, Scanning(got), turns[0])
    ensures var t, rest := turns[0], turns[1..];
            var run, first := Run(stream, opens, Scanning(got), turns), FirstComplete(stream, h, got, turns);
            && ret <= BUF_SIZE - got && ret <= |stream| - got
            && (ret <= 0 && !t.again ==>
                  run == Run(stream, opens, Ended(RecvErr, []), rest) && first == None)
            && (ret <= 0 && t.again ==>
                  run == Run(stream, opens, Scanning(got), rest) && first == FirstComplete(stream, h, got, rest))
            && (0 < ret < h - got ==>
                  run == Run(stream, opens, Scanning(got + ret), rest)
                  && first == FirstComplete(stream, h, got + ret, rest))
            && (0 < ret && h - got <= ret ==>
                  run == Run(stream, opens, StartBody(stream, got + ret, opens, t.stored), rest)
                  && first == Some(Arrival(got + ret, t.stored)))
  {
    hide HeadAt, StartBody, Buffer, HeadEnd;
    ret := ReadOf(stream, Scanning(got), turns[0]);
    if ret > 0 {
      HeadEndOfPrefix(stream, h, got + ret);
    }
  }

  lemma NothingStored(stream: seq<Byte>, h: nat, c: int, opens: bool, p: Progress)
    requires h <= |stream| && (p.Scanning? || p == Ended(RecvErr, []))
    ensures StoresBody(stream, h, c, opens, None, p)
  {
    assert stream[h..h] == [];
  }

  lemma StartBodyStoresBody(stream: seq<Byte>, h: nat, c: int, got: nat, opens: bool, stored: bool, turns: seq<Turn>)
    requires Announces(stream, h, c) && h <= got <= |stream| && got <= BUF_SIZE
    ensures StoresBody(stream, h, c, opens, Some(Arrival(got, stored)),
                       Run(stream, opens, StartBody(stream, got, opens, stored), turns))
  {
    hide StartBody, Run, Announces, HeadAt;
    AnnouncedStart(stream, h, c, got, opens, stored);
    HeadFits(stream, h, c);
    var start := StartBody(stream, got, opens, stored);
    assert stream[h..h] == [];
    if opens && (got == h || stored) {
      CopyingCopies(stream, h, got, c, stream[h..got], opens, turns);
      hide Settle;
    } else {
      EndedStays(stream, opens, start, turns);
    }
  }

  /** Between the loops, when the first `h` bytes announce a body. */
  lemma AnnouncedStart(stream: seq<Byte>, h: nat, c: int, got: nat, opens: bool, stored: bool)
    requires Announces(stream, h, c) && h <= got <= |stream| && got <= BUF_SIZE
    ensures StartBody(stream, got, opens, stored) ==
            if !opens then Ended(OpenFailed, [])
            else if got > h && !stored then Ended(WriteFailed, [])
            else Settle(got, c, stream[h..got])
  {
    PrefixesAgree(stream, h, c, got);
    BodyUntouched(stream, got, ParseHead(Buffer(stream, got)));
    assert c > 0;
    hide ParseHead, HeadEnd, Buffer, Announces, Settle;
    assert stream[h..h] == [];
  }

  /** Main result: for every announced response and every fragmentation, retry, failure of the
      socket and of the package, the package holds a beginning of the body; on success it holds
      exactly the Content-Length bytes that follow the head; and the count passes the announced
      length exactly when more body bytes than that had arrived at the moment the head was first
      complete, and were stored. */
  lemma DownloadStoresTheBody(stream: seq<Byte>, h: nat, c: int, opens: bool, turns: seq<Turn>)
    requires Announces(stream, h, c)
    ensures var p, a := Downloaded(stream, opens, turns), FirstComplete(stream, h, 0, turns);
            && StoresBody(stream, h, c, opens, a, p)
            && (p.Ended? && p.exit == Success ==> h + c <= |stream| && p.image == stream[h..h + c])
            && (p.Ended? && p.exit == OutOfRange <==>
                  a.Some? && a.value.got > h + c && opens && a.value.stored)
            && (|Image(p)| > c <==> p.Ended? && p.exit == OutOfRange)
  {
    ScanningStoresBody(stream, h, c, 0, opens, turns);
  }

  /** The exact condition on the response: no fragmentation makes the count pass the announced
      length if and only if the stream ends with the announced body, or head and body fill the
      receive buffer. Otherwise one read that fills the buffer does. */
  lemma NeverPassesLengthIff(stream: seq<Byte>, h: nat, c: int)
    requires Announces(stream, h, c)
    ensures (forall opens, turns :: |Image(Downloaded(stream, opens, turns))| <= c)
            <==> (|stream| <= h + c || 2048 <= h + c)
    ensures (forall opens, turns :: !Downloaded(stream, opens, turns).Ended?
                                    || Downloaded(stream, opens, turns).exit != OutOfRange)
            <==> (|stream| <= h + c || 2048 <= h + c)
  {
    hide Announces, Downloaded, StoresBody;
    if |stream| <= h + c || BUF_SIZE <= h + c {
      forall opens, turns
        ensures |Image(Downloaded(stream, opens, turns))| <= c
        ensures !Downloaded(stream, opens, turns).Ended? || Downloaded(stream, opens, turns).exit != OutOfRange
      {
        DownloadStoresTheBody(stream, h, c, opens, turns);
      }
    } else {
      var turns := [Turn(false, false, BUF_SIZE, true)];
      DownloadStoresTheBody(stream, h, c, true, turns);
      HeadFits(stream, h, c);
      assert FirstComplete(stream, h, 0, turns).Some?;
      assert |Image(Downloaded(stream, true, turns))| > c;
    }
  }

  lemma HeadFits(stream: seq<Byte>, h: nat, c: int)
    requires Announces(stream, h, c)
    ensures 0 < h <= |stream| && h <= BUF_SIZE && HeadAt(stream, h) && c > 0
  {
  }

  /** Turns that deliver and store. */
  predicate AllGood(turns: seq<Turn>) {
    forall i :: 0 <= i < |turns| ==> !turns[i].failed && turns[i].bytes > 0 && turns[i].stored
  }

  lemma {:induction false} CopyingCompletes(stream: seq<Byte>, pos: nat, c: int, image: seq<Byte>, turns: seq<Turn>)
    requires pos <= |stream| && AllGood(turns) && |image| <= c
    requires c - |image| == |stream| - pos <= |turns|
    ensures var p := Run(stream, true, Settle(pos, c, image), turns); p.Ended? && p.exit == Success
    decreases |turns|
  {
    hide ScanTurn;
    if |image| < c {
      var ret := ReadOf(stream, Settle(pos, c, image), turns[0]);
      CopyingCompletes(stream, pos + ret, c, image + stream[pos..pos + ret], turns[1..]);
    } else {
      EndedStays(stream, true, Settle(pos, c, image), turns);
    }
  }

  lemma {:induction false} ScanningCompletes(stream: seq<Byte>, h: nat, c: int, got: nat, turns: seq<Turn>)
    requires Announces(stream, h, c) && |stream| == h + c && got < h
    requires AllGood(turns) && |turns| >= |stream| - got
    ensures var p := Run(stream, true, Scanning(got), turns); p.Ended? && p.exit == Success
    decreases |turns|
  {
    hide Announces, HeadAt, StartBody, TakeTurn, Run, FirstComplete, ReadOf;
    HeadFits(stream, h, c);
    GoodRead(stream, got, turns[0]);
    assert AllGood(turns[1..]);
    var ret := HeadIsAwaited(stream, h, got, true, turns);
    var g := got + ret;
    if g < h {
      ScanningCompletes(stream, h, c, g, turns[1..]);
    } else {
      StartBodyCompletes(stream, h, c, g, turns[0].stored, turns[1..]);
    }
  }

  lemma GoodRead(stream: seq<Byte>, got: nat, t: Turn)
    requires got < |stream| && got < BUF_SIZE && !t.failed && t.bytes > 0
    ensures 0 < ReadOf(stream, Scanning(got), t) <= |stream| - got
  {
  }

  lemma StartBodyCompletes(stream: seq<Byte>, h: nat, c: int, got: nat, stored: bool, turns: seq<Turn>)
    requires Announces(stream, h, c) && |stream| == h + c && h <= got <= |stream| && got <= BUF_SIZE
    requires stored && AllGood(turns) && |turns| >= |stream| - got
    ensures var p := Run(stream, true, StartBody(stream, got, true, stored), turns);
            p.Ended? && p.exit == Success
  {
    hide StartBody, Announces, Run;
    AnnouncedStart(stream, h, c, got, true, stored);
    CopyingCompletes(stream, got, c, stream[h..got], turns);
  }

  /** Completeness: a response of exactly the announced size is stored whole by any
      fragmentation that keeps delivering. */
  lemma GoodTurnsComplete(stream: seq<Byte>, h: nat, c: int, turns: seq<Turn>)
    requires Announces(stream, h, c) && |stream| == h + c
    requires AllGood(turns) && |turns| >= |stream|
    ensures Downloaded(stream, true, turns) == Ended(Success, stream[h..])
  {
    ScanningCompletes(stream, h, c, 0, turns);
    DownloadStoresTheBody(stream, h, c, true, turns);
  }

  /** Turns that deliver all that is asked for. */
  predicate AllFull(turns: seq<Turn>) {
    forall i :: 0 <= i < |turns| ==> !turns[i].failed && turns[i].bytes >= BUF_SIZE && turns[i].stored
  }

  lemma {:induction false} FullCopyingCompletes(stream: seq<Byte>, pos: nat, c: int, image: seq<Byte>, turns: seq<Turn>)
    requires pos <= |stream| && AllFull(turns) && |image| <= c
    requires c - |image| == |stream| - pos <= BUF_SIZE * |turns|
    ensures var p := Run(stream, true, Settle(pos, c, image), turns); p.Ended? && p.exit == Success
    decreases |turns|
  {
    hide ScanTurn;
    if |image| < c {
      var ret := ReadOf(stream, Settle(pos, c, image), turns[0]);
      FullCopyingCompletes(stream, pos + ret, c, image + stream[pos..pos + ret], turns[1..]);
    } else {
      EndedStays(stream, true, Settle(pos, c, image), turns);
    }
  }

  /** Every read takes as much as the buffer and the body leave: when the network is never
      short, a response of exactly the announced size is stored whole in one turn for each
      2048 bytes of it. */
  lemma FullTurnsComplete(stream: seq<Byte>, h: nat, c: int, turns: seq<Turn>)
    requires Announces(stream, h, c) && |stream| == h + c
    requires AllFull(turns) && |stream| <= 2048 * |turns|
    ensures Downloaded(stream, true, turns) == Ended(Success, stream[h..])
  {
    FullTurnsSucceed(stream, h, c, turns);
    DownloadStoresTheBody(stream, h, c, true, turns);
    hide Announces, FirstComplete, Downloaded;
  }

  lemma FullTurnsSucceed(stream: seq<Byte>, h: nat, c: int, turns: seq<Turn>)
    requires Announces(stream, h, c) && |stream| == h + c
    requires AllFull(turns) && |stream| <= 2048 * |turns|
    ensures var p := Downloaded(stream, true, turns); p.Ended? && p.exit == Success
  {
    hide Announces, HeadAt, StartBody, FirstComplete, Run, TakeTurn;
    HeadFits(stream, h, c);
    var got := HeadIsAwaited(stream, h, 0, true, turns);
    assert got == if |stream| <= BUF_SIZE then |stream| else BUF_SIZE;
    assert AllFull(turns[1..]);
    hide *;
    FullStart(stream, h, c, got, turns[1..]);
  }

  lemma FullStart(stream: seq<Byte>, h: nat, c: int, got: nat, turns: seq<Turn>)
    requires Announces(stream, h, c) && |stream| == h + c && h <= got <= |stream| && got <= BUF_SIZE
    requires AllFull(turns) && |stream| - got <= BUF_SIZE * |turns|
    ensures var p := Run(stream, true, StartBody(stream, got, true, true), turns);
            p.Ended? && p.exit == Success
  {
    hide StartBody, Announces, Run;
    AnnouncedStart(stream, h, c, got, true, true);
    FullCopyingCompletes(stream, got, c, stream[h..got], turns);
  }

  // ---------------------------------------------------------------------------
  // Responses that are refused
  // ---------------------------------------------------------------------------

  /** A complete head in the buffer that is no HTTP response of status 200, or gives a length
      that is not positive. */
  ghost predicate Refuses(stream: seq<Byte>, h: nat) {
    && HeadAt(stream, h)
    && var head := stream[..h];
    && (IsHttp(head) && Status(head) == Some(200) ==> HeadLength(head).Some? && HeadLength(head).value <= 0)
  }

  /** Such a response ends with "file does not exist" as soon as its head is complete, whatever
      comes with it, and nothing is stored. */
  lemma {:induction false} RefusedResponsesStoreNothing(
      stream: seq<Byte>, h: nat, got: nat, opens: bool, turns: seq<Turn>)
    requires Refuses(stream, h) && got < h
    ensures var p := Run(stream, opens, Scanning(got), turns);
            if FirstComplete(stream, h, got, turns).Some? then p == Ended(FileNotExist, [])
            else p.Scanning? || p == Ended(RecvErr, [])
    decreases |turns|
  {
    assert HeadAt(stream, h) && h <= |stream| && h <= BUF_SIZE;
    if turns == [] {
      NoTurns(stream, opens, Scanning(got));
      NoArrival(stream, h, got);
      hide *;
    } else {
      hide *;
      var ret := HeadIsAwaited(stream, h, got, opens, turns);
      if ret <= 0 && !turns[0].again {
        EndedStays(stream, opens, Ended(RecvErr, []), turns[1..]);
      } else if ret <= 0 {
        RefusedResponsesStoreNothing(stream, h, got, opens, turns[1..]);
      } else if got + ret < h {
        RefusedResponsesStoreNothing(stream, h, got + ret, opens, turns[1..]);
      } else {
        RefusedStart(stream, h, got + ret, opens, turns[0].stored);
        EndedStays(stream, opens, Ended(FileNotExist, []), turns[1..]);
      }
    }
  }

  lemma NoArrival(stream: seq<Byte>, h: nat, got: nat)
    requires got <= |stream| && got <= BUF_SIZE
    ensures FirstComplete(stream, h, got, []) == None
  {
  }

  lemma RefusedStart(stream: seq<Byte>, h: nat, got: nat, opens: bool, stored: bool)
    requires Refuses(stream, h) && h <= got <= |stream| && got <= BUF_SIZE
    ensures StartBody(stream, got, opens, stored) == Ended(FileNotExist, [])
  {
    var head, mem := stream[..h], Buffer(stream, got);
    assert mem == head + mem[h..];
    RefusedHead(head, mem[h..]);
    hide ParseHead, Refuses, Buffer;
  }

  lemma RefusedHead(head: seq<Byte>, rest: seq<Byte>)
    requires IsHead(head)
    requires IsHttp(head) && Status(head) == Some(200) ==> HeadLength(head).Some? && HeadLength(head).value <= 0
    ensures var p := ParseHead(head + rest); p.Parsed? && (p.head < 0 || p.len <= 0)
  {
    if IsHttp(head) && Status(head) == Some(200) {
      ParseDependsOnHeadOnly(head, rest);
    } else if IsHttp(head) {
      StatusOfHead(head);
      StatusIsKnown(head, rest);
      hide Status, HeadEnd, LengthField, IsHead;
    } else {
      StartOfHead(head, rest);
      hide Status, HeadEnd, LengthField, IsHead;
    }
  }

  // ---------------------------------------------------------------------------
  // Responses whose scan leaves the buffer
  // ---------------------------------------------------------------------------

  /** Nothing in the first 2048 bytes ends a head or a string. */
  ghost predicate HeadTooLong(stream: seq<Byte>) {
    && |stream| >= BUF_SIZE
    && (forall i :: 0 <= i < BUF_SIZE ==> stream[i] != 0)
    && (forall j: nat :: !Occurs(stream[..BUF_SIZE], j, BLANK_LINE) && !Occurs(stream[..BUF_SIZE], j, ODD_BLANK_LINE))
  }

  /** With such a response the scan leaves the buffer as soon as it is full, and not before. */
  lemma {:induction false} LongHeadsRunOff(stream: seq<Byte>, got: nat, opens: bool, turns: seq<Turn>)
    requires HeadTooLong(stream) && got < BUF_SIZE
    ensures var p := Run(stream, opens, Scanning(got), turns);
            if FirstComplete(stream, BUF_SIZE, got, turns).Some? then p == Ended(OutOfRange, [])
            else p.Scanning? || p == Ended(RecvErr, [])
    decreases |turns|
  {
    assert |stream| >= BUF_SIZE;
    if turns == [] {
      NoTurns(stream, opens, Scanning(got));
      NoArrival(stream, BUF_SIZE, got);
      hide *;
    } else {
      hide *;
      var ret := LongHeadIsAwaited(stream, got, opens, turns);
      if ret <= 0 && !turns[0].again {
        EndedStays(stream, opens, Ended(RecvErr, []), turns[1..]);
      } else if ret <= 0 {
        LongHeadsRunOff(stream, got, opens, turns[1..]);
      } else if got + ret < BUF_SIZE {
        LongHeadsRunOff(stream, got + ret, opens, turns[1..]);
      } else {
        EndedStays(stream, opens, Ended(OutOfRange, []), turns[1..]);
      }
    }
  }

  lemma LongHeadIsAwaited(stream: seq<Byte>, got: nat, opens: bool, turns: seq<Turn>) returns (ret: int)
    requires HeadTooLong(stream) && got < BUF_SIZE && turns != []
    ensures ret == ReadOf(stream, Scanning(got), turns[0]) <= BUF_SIZE - got
    ensures var t, rest := turns[0], turns[1..];
            var run := Run(stream, opens, Scanning(got), turns);
            var complete := FirstComplete(stream, BUF_SIZE, got, turns).Some?;
            && (ret <= 0 && !t.again ==> run == Run(stream, opens, Ended(RecvErr, []), rest) && !complete)
            && (ret <= 0 && t.again ==>
                  run == Run(stream, opens, Scanning(got), rest)
                  && complete == FirstComplete(stream, BUF_SIZE, got, rest).Some?)
            && (0 < ret < BUF_SIZE - got ==>
                  run == Run(stream, opens, Scanning(got + ret), rest)
                  && complete == FirstComplete(stream, BUF_SIZE, got + ret, rest).Some?)
            && (0 < ret == BUF_SIZE - got ==> run == Run(stream, opens, Ended(OutOfRange, []), rest) && complete)
  {
    assert |stream| >= BUF_SIZE;
    hide HeadTooLong, StartBody, Buffer, HeadEnd;
    ret := ReadOf(stream, Scanning(got), turns[0]);
    if ret > 0 {
      LongHeadEnd(stream, got + ret);
    }
  }

  lemma LongHeadEnd(stream: seq<Byte>, got: nat)
    requires HeadTooLong(stream) && got <= BUF_SIZE
    ensures HeadEnd(Buffer(stream, got)) == if got < BUF_SIZE then Absent else Overrun
  {
    var mem := Buffer(stream, got);
    if got == BUF_SIZE {
      assert mem == stream[..BUF_SIZE];
      OccursNowhere(mem, BLANK_LINE, 0);
    } else {
      assert stream[..BUF_SIZE][..got] == stream[..got];
      forall j: nat | j <= got
        ensures !Occurs(mem, j, BLANK_LINE) && !Occurs(mem, j, ODD_BLANK_LINE)
      {
        NoBlankLineYet(stream[..BUF_SIZE], got, BUF_SIZE, j, BLANK_LINE);
        NoBlankLineYet(stream[..BUF_SIZE], got, BUF_SIZE, j, ODD_BLANK_LINE);
      }
      StrStrAbsent(mem, BLANK_LINE, 0, got);
      StrStrAbsent(mem, ODD_BLANK_LINE, 0, got);
    }
  }

  /** A head without a length, followed by digits that fill the buffer, ends in the same way. */
  lemma NoLengthRunsOff(head: seq<Byte>, opens: bool, stored: bool)
    requires IsHead(head) && IsHttp(head) && Status(head) == Some(200) && |head| <= BUF_SIZE
    requires HeadLength(head) == None
    ensures Downloaded(head + Sevens(BUF_SIZE - |head|), opens, [Turn(false, false, BUF_SIZE, stored)])
            == Ended(OutOfRange, [])
  {
    var n := BUF_SIZE - |head|;
    var stream, t := head + Sevens(n), Turn(false, false, BUF_SIZE, stored);
    assert stream[..|head|] == head;
    var ret := HeadIsAwaited(stream, |head|, 0, opens, [t]);
    assert Buffer(stream, BUF_SIZE) == stream;
    SevensRunOff(head, n);
    hide ParseHead, Buffer, IsHead, HeadLength, IsHttp, Status;
    assert [t][1..] == [];
    NoTurns(stream, opens, Ended(OutOfRange, []));
  }

  // ---------------------------------------------------------------------------
  // The turn on which a download ends
  // ---------------------------------------------------------------------------

  lemma {:induction false} RunConcat(stream: seq<Byte>, opens: bool, p: Progress, turns: seq<Turn>, more: seq<Turn>)
    requires InStream(stream, p)
    ensures Run(stream, opens, p, turns + more) == Run(stream, opens, Run(stream, opens, p, turns), more)
    decreases |turns|
  {
    hide TakeTurn;
    if turns == [] {
      assert turns + more == more;
    } else {
      assert (turns + more)[1..] == turns[1..] + more;
      RunConcat(stream, opens, TakeTurn(stream, opens, p, turns[0]), turns[1..], more);
    }
  }

  /** The read of this turn fails: no bytes in the first loop, an error in the second. */
  predicate ReadFails(stream: seq<Byte>, p: Progress, t: Turn)
    requires InStream(stream, p) && !p.Ended?
  {
    if p.Scanning? then ReadOf(stream, p, t) <= 0 else ReadOf(stream, p, t) < 0
  }

  /** The read of this turn completes a head of status 200 that announces a length. */
  predicate FindsHead(stream: seq<Byte>, p: Progress, t: Turn)
    requires InStream(stream, p) && !p.Ended?
  {
    p.Scanning? && !ReadFails(stream, p, t) &&
    var mem := Buffer(stream, p.got + ReadOf(stream, p, t));
    HeadEnd(mem).Found? && ParseHead(mem).Parsed? && 0 <= ParseHead(mem).head && 0 < ParseHead(mem).len
  }

  /** The turn comes to its package write: in the second loop after any read that does not
      fail; in the first when it finds the head, the package can be opened, and body bytes came
      with the head. */
  predicate Stores(stream: seq<Byte>, opens: bool, p: Progress, t: Turn)
    requires InStream(stream, p) && !p.Ended?
  {
    if p.Scanning? then
      FindsHead(stream, p, t) && opens
      && ParseHead(Buffer(stream, p.got + ReadOf(stream, p, t))).head < p.got + ReadOf(stream, p, t)
    else !ReadFails(stream, p, t)
  }

  /** How a download that is at `p` ends on turn `t`: with a receive error exactly when the read
      of that turn fails, and then its error does not ask to try again; with a write error
      exactly when the turn comes to its package write and the write fails; with an open error
      exactly when it finds the head and the package cannot be opened. None of these stores
      anything on that turn. */
  ghost predicate EndsOn(stream: seq<Byte>, opens: bool, p: Progress, t: Turn, exit: Exit, image: seq<Byte>)
    requires InStream(stream, p)
  {
    && !p.Ended?
    && (exit == RecvErr <==> ReadFails(stream, p, t))
    && (exit == RecvErr ==> !t.again && image == Image(p))
    && (exit == WriteFailed <==> Stores(stream, opens, p, t) && !t.stored)
    && (exit == WriteFailed ==> image == Image(p))
    && (exit == OpenFailed <==> FindsHead(stream, p, t) && !opens)
    && (exit == OpenFailed ==> image == [])
  }

  lemma LastTurn(stream: seq<Byte>, opens: bool, p: Progress, t: Turn)
    requires InStream(stream, p) && !p.Ended?
    ensures var q := TakeTurn(stream, opens, p, t); q.Ended? ==> EndsOn(stream, opens, p, t, q.exit, q.image)
  {
    hide ParseHead, HeadEnd, Buffer;
  }

  /** A turn that fails does so at once: a failed read that asks to try again changes nothing,
      another one ends the download, and so do a failing write and a failing open. */
  lemma TurnFails(stream: seq<Byte>, opens: bool, p: Progress, t: Turn)
    requires InStream(stream, p) && !p.Ended?
    ensures var q := TakeTurn(stream, opens, p, t);
            && (ReadFails(stream, p, t) ==> q == if t.again then p else Ended(RecvErr, Image(p)))
            && (Stores(stream, opens, p, t) && !t.stored ==> q == Ended(WriteFailed, Image(p)))
            && (FindsHead(stream, p, t) && !opens ==> q == Ended(OpenFailed, []))
  {
    hide ParseHead, HeadEnd, Buffer;
  }

  /** Every download that ends does so on one of its turns, which alone decides how: the turns
      before it leave the download running, and the turns after it are never used. */
  lemma {:induction false} EndsOnOneTurn(stream: seq<Byte>, opens: bool, turns: seq<Turn>) returns (k: nat)
    requires Downloaded(stream, opens, turns).Ended?
    ensures k < |turns|
    ensures var p := Downloaded(stream, opens, turns);
            EndsOn(stream, opens, Downloaded(stream, opens, turns[..k]), turns[k], p.exit, p.image)
    ensures forall others :: turns[..k + 1] <= others ==>
              Downloaded(stream, opens, others) == Downloaded(stream, opens, turns)
    decreases |turns|
  {
    var n := |turns| - 1;
    assert turns == turns[..n] + [turns[n]];
    var before := Downloaded(stream, opens, turns[..n]);
    RunConcat(stream, opens, Scanning(0), turns[..n], [turns[n]]);
    OneTurn(stream, opens, before, turns[n]);
    if before.Ended? {
      hide EndsOn;
      k := EndsOnOneTurn(stream, opens, turns[..n]);
      assert turns[..n][..k] == turns[..k] && turns[..n][..k + 1] == turns[..k + 1];
    } else {
      k := n;
      LastTurn(stream, opens, before, turns[n]);
      hide EndsOn;
      assert turns[..n + 1] == turns;
      forall others | turns <= others
        ensures Downloaded(stream, opens, others) == Downloaded(stream, opens, turns)
      {
        assert others == turns + others[n + 1..];
        RunConcat(stream, opens, Scanning(0), turns, others[n + 1..]);
        EndedStays(stream, opens, Downloaded(stream, opens, turns), others[n + 1..]);
      }
    }
  }

  lemma OneTurn(stream: seq<Byte>, opens: bool, p: Progress, t: Turn)
    requires InStream(stream, p)
    ensures Run(stream, opens, p, [t]) == TakeTurn(stream, opens, p, t)
  {
    hide TakeTurn;
    assert [t][1..] == [];
  }
}
