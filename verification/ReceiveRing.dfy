/** The 20 KiB receive ring of the file demo: `sReceiveDataRW`.

    `Ring` is the value of the four globals (buffer, read index, write index, free
    count); `ReadRing` and `WriteRing` follow the two arms of the C switch branch by
    branch. The lemmas relate them to a byte queue. `RingBuffer` is the object itself,
    updated in place, proved equal to the two functions. */
module ReceiveRing {
  import opened Bytes

  const RECV_DATA_BUFFER_SIZE := 20480
  const SYNC_THRESHOLD := 1024

  datatype RingFields = Ring(buf: seq<Byte>, r: nat, w: nat, free: nat)
  {
    function Stored(): int { RECV_DATA_BUFFER_SIZE - free }
  }

  predicate WellShaped(g: RingFields) {
    && |g.buf| == RECV_DATA_BUFFER_SIZE
    && g.r < RECV_DATA_BUFFER_SIZE
    && g.w < RECV_DATA_BUFFER_SIZE
    && g.free <= RECV_DATA_BUFFER_SIZE
  }

  type Ring = g: RingFields | WellShaped(g) witness EmptyRing()

  /** The ring that the transfer set-up installs. */
  function EmptyRing(): (g: RingFields)
    ensures WellShaped(g)
  {
    RingFields.Ring(Zeros(RECV_DATA_BUFFER_SIZE), 0, 0, RECV_DATA_BUFFER_SIZE)
  }

  /** The index invariant: the write index is the read index plus the stored count, modulo
      the size. Equal indices mean empty or full; the free count tells which. */
  ghost predicate Coherent(g: Ring) {
    g.w == (g.r + g.Stored()) % RECV_DATA_BUFFER_SIZE
  }

  /** The stored bytes, oldest first. */
  ghost function Contents(g: Ring): (q: seq<Byte>)
    ensures |q| == g.Stored()
  {
    if g.r + g.Stored() <= RECV_DATA_BUFFER_SIZE then g.buf[g.r..g.r + g.Stored()]
    else g.buf[g.r..] + g.buf[..g.r + g.Stored() - RECV_DATA_BUFFER_SIZE]
  }

  predicate Signals(g: Ring) {
    g.Stored() > SYNC_THRESHOLD
  }

  /** Result of a read: the new ring, the returned number, the bytes copied out and whether
      the SYNC flag was raised; or a copy with a range outside the ring, which has no
      defined result in C. */
  datatype ReadOutcome = Done(ring: Ring, ret: int, out: seq<Byte>, sync: bool) | BadCopy

  datatype WriteOutcome = Wrote(ring: Ring, ret: int, sync: bool)

  function Min(a: int, b: int): int {
    if a < b then a else b
  }

  function ReadRing(g: Ring, len: int): (o: ReadOutcome)
  {
    if len <= 0 then Done(g, -1, [], false)
    else
      var opLen: nat := Min(len, g.Stored());
      var free: nat := g.free + opLen;
      var more := if free < RECV_DATA_BUFFER_SIZE then 1 else 0;
      if opLen == 0 && g.r == g.w then
        Done(g.(free := free), 0, [], Signals(g.(free := free)))
      else if g.r < g.w || (opLen == RECV_DATA_BUFFER_SIZE && g.r == 0) then
        if g.r + opLen > RECV_DATA_BUFFER_SIZE then BadCopy
        else
          var r := if opLen != RECV_DATA_BUFFER_SIZE then g.r + opLen else g.r;
          if r >= RECV_DATA_BUFFER_SIZE then BadCopy
          else
            var g' := g.(free := free, r := r);
            Done(g', opLen + more, g.buf[g.r..g.r + opLen], Signals(g'))
      else if g.r > g.w || (opLen == RECV_DATA_BUFFER_SIZE && g.r != 0) then
        var tail := RECV_DATA_BUFFER_SIZE - g.r;
        if opLen < tail || opLen - tail >= RECV_DATA_BUFFER_SIZE then BadCopy
        else
          var r := if opLen != RECV_DATA_BUFFER_SIZE then opLen - tail else g.r;
          var g' := g.(free := free, r := r);
          Done(g', opLen + more, g.buf[g.r..] + g.buf[..opLen - tail], Signals(g'))
      else
        // the C code has already added opLen to the free count here
        Done(g.(free := free), -1, [], Signals(g.(free := free)))
  }

  function WriteRing(g: Ring, data: seq<Byte>): (o: WriteOutcome)
  {
    if |data| == 0 then Wrote(g, -1, false)
    else if g.free < |data| then Wrote(g, -1, Signals(g))
    else
      var tail := RECV_DATA_BUFFER_SIZE - g.w;
      var g' :=
        if tail >= |data| then
          g.(free := g.free - |data|,
             buf := Splice(g.buf, g.w, data),
             w := if g.w + |data| == RECV_DATA_BUFFER_SIZE then 0 else g.w + |data|)
        else
          g.(free := g.free - |data|,
             buf := Splice(Splice(g.buf, g.w, data[..tail]), 0, data[tail..]),
             w := |data| - tail);
      Wrote(g', |data|, Signals(g'))
  }

  // ---------------------------------------------------------------------------
  // Refinement of a bounded byte queue
  // ---------------------------------------------------------------------------

  /** A write appends all its bytes, or changes nothing when the room is short. */
  lemma WriteAppends(g: Ring, data: seq<Byte>)
    requires Coherent(g) && data != []
    ensures var o := WriteRing(g, data);
            && Coherent(o.ring)
            && (|data| <= RECV_DATA_BUFFER_SIZE - |Contents(g)| ==>
                  o.ret == |data| && Contents(o.ring) == Contents(g) + data)
            && (|data| > RECV_DATA_BUFFER_SIZE - |Contents(g)| ==> o.ret == -1 && o.ring == g)
            && (o.sync <==> |Contents(o.ring)| > 1024)
  {
    hide Contents, Splice;
    if g.free >= |data| {
      WriteContents(g, data);
    }
  }

  /** Slot of the queue's `i`-th byte. */
  function Slot(g: Ring, i: nat): (at: nat)
    requires i < RECV_DATA_BUFFER_SIZE
    ensures at < RECV_DATA_BUFFER_SIZE
  {
    if g.r + i < RECV_DATA_BUFFER_SIZE then g.r + i else g.r + i - RECV_DATA_BUFFER_SIZE
  }

  lemma ContentsAt(g: Ring, i: nat)
    ensures i < g.Stored() ==> Contents(g)[i] == g.buf[Slot(g, i)]
  {
  }

  /** A write fills exactly the slots behind the stored bytes. */
  lemma WriteSlots(g: Ring, data: seq<Byte>, i: nat)
    requires Coherent(g) && data != [] && |data| <= g.free && i < g.Stored() + |data|
    ensures var g' := WriteRing(g, data).ring;
            g'.buf[Slot(g, i)] == if i < g.Stored() then g.buf[Slot(g, i)] else data[i - g.Stored()]
  {
  }

  lemma ExtendedContents(g: Ring, g': Ring, data: seq<Byte>)
    requires g'.r == g.r && g'.Stored() == g.Stored() + |data|
    requires forall i: nat :: i < g'.Stored() ==>
               g'.buf[Slot(g, i)] == if i < g.Stored() then g.buf[Slot(g, i)] else data[i - g.Stored()]
    ensures Contents(g') == Contents(g) + data
  {
    forall i: nat | i < g'.Stored()
      ensures Contents(g')[i] == (Contents(g) + data)[i]
    {
      ContentsAt(g, i);
      ContentsAt(g', i);
      assert Slot(g', i) == Slot(g, i);
      hide Contents;
    }
  }

  lemma WriteContents(g: Ring, data: seq<Byte>)
    requires Coherent(g) && data != [] && |data| <= g.free
    ensures Contents(WriteRing(g, data).ring) == Contents(g) + data
  {
    var g' := WriteRing(g, data).ring;
    forall i: nat | i < g'.Stored()
      ensures g'.buf[Slot(g, i)] == if i < g.Stored() then g.buf[Slot(g, i)] else data[i - g.Stored()]
    {
      WriteSlots(g, data, i);
    }
    ExtendedContents(g, g', data);
  }

  /** What the ring can serve: any request when the stored bytes do not wrap, one that covers
      the wrapped tail when they do, and only a request for everything when the ring is full. */
  predicate ReadContract(g: Ring, len: int) {
    && len > 0
    && (g.Stored() == RECV_DATA_BUFFER_SIZE ==> len >= RECV_DATA_BUFFER_SIZE)
    && (g.r > g.w ==> Min(len, g.Stored()) >= RECV_DATA_BUFFER_SIZE - g.r)
  }

  /** The outcome a byte queue gives: the oldest bytes leave, the rest stays, and the number
      returned is the count of bytes, plus one exactly when bytes remain. */
  ghost predicate DequeuesOldest(g: Ring, len: int, o: ReadOutcome)
    requires len > 0
  {
    var n := Min(len, |Contents(g)|);
    && o.Done?
    && Coherent(o.ring)
    && o.out == Contents(g)[..n]
    && Contents(o.ring) == Contents(g)[n..]
    && o.ret == n + (if |Contents(g)| > n then 1 else 0)
    && o.sync == (|Contents(o.ring)| > SYNC_THRESHOLD)
  }

  /** A read behaves as a dequeue exactly under the contract, for every coherent ring. */
  lemma ReadDequeuesIffContract(g: Ring, len: int)
    requires Coherent(g) && len > 0
    ensures DequeuesOldest(g, len, ReadRing(g, len)) <==> ReadContract(g, len)
  {
    if ReadContract(g, len) {
      ReadContents(g, len);
    }
  }

  lemma ReadContents(g: Ring, len: int)
    requires Coherent(g) && ReadContract(g, len)
    ensures DequeuesOldest(g, len, ReadRing(g, len))
  {
    if g.Stored() == RECV_DATA_BUFFER_SIZE {
      ReadFull(g, len);
    } else if g.r > g.w {
      ReadWrapped(g, len);
    } else {
      ReadLinear(g, len);
    }
  }

  lemma ReadFull(g: Ring, len: int)
    requires Coherent(g) && ReadContract(g, len) && g.Stored() == RECV_DATA_BUFFER_SIZE
    ensures DequeuesOldest(g, len, ReadRing(g, len))
  {
  }

  lemma ReadLinear(g: Ring, len: int)
    requires Coherent(g) && ReadContract(g, len) && g.r <= g.w && g.Stored() < RECV_DATA_BUFFER_SIZE
    ensures DequeuesOldest(g, len, ReadRing(g, len))
  {
    var o := ReadRing(g, len);
    var n := Min(len, g.Stored());
    LinearContents(g, g.r, g.w);
    if n > 0 {
      LinearContents(o.ring, g.r + n, g.w);
      assert o.out == g.buf[g.r..g.r + n];
    }
    hide Contents;
    assert g.buf[g.r..g.w][..n] == g.buf[g.r..g.r + n];
    assert g.buf[g.r..g.w][n..] == g.buf[g.r + n..g.w];
  }

  lemma ReadWrapped(g: Ring, len: int)
    requires Coherent(g) && ReadContract(g, len) && g.r > g.w && g.Stored() < RECV_DATA_BUFFER_SIZE
    ensures DequeuesOldest(g, len, ReadRing(g, len))
  {
    var o := ReadRing(g, len);
    var h := Min(len, g.Stored()) - (RECV_DATA_BUFFER_SIZE - g.r);
    TakeWrapped(g.buf[g.r..], g.buf[..g.w], h);
    WrappedContents(g);
    LinearContents(o.ring, h, g.w);
    assert g.buf[..g.w][h..] == g.buf[h..g.w];
    assert g.buf[..g.w][..h] == g.buf[..h];
    hide Contents;
  }

  lemma WrappedContents(g: Ring)
    requires Coherent(g) && g.r > g.w
    ensures Contents(g) == g.buf[g.r..] + g.buf[..g.w]
  {
  }

  lemma LinearContents(g: Ring, lo: nat, hi: nat)
    requires g.r == lo && lo + g.Stored() == hi <= RECV_DATA_BUFFER_SIZE
    ensures Contents(g) == g.buf[lo..hi]
  {
  }

  lemma TakeWrapped(tail: seq<Byte>, head: seq<Byte>, h: nat)
    requires h <= |head|
    ensures (tail + head)[..|tail| + h] == tail + head[..h]
    ensures (tail + head)[|tail| + h..] == head[h..]
  {
  }

  /** Outside the contract a read never returns wrong bytes. On a full ring it is refused, with
      the free count changed, so that the ring is no longer coherent; on any other it leaves the
      buffer. */
  lemma ReadExactOrNotAtAll(g: Ring, len: int)
    requires Coherent(g)
    ensures var o := ReadRing(g, len);
            && (len <= 0 ==> o == Done(g, -1, [], false))
            && (o.Done? && o.ret >= 0 ==> len > 0 && DequeuesOldest(g, len, o))
            && (len > 0 && !ReadContract(g, len) ==>
                  if |Contents(g)| == RECV_DATA_BUFFER_SIZE then
                    o.Done? && o.ret == -1 && o.out == []
                    && o.ring == g.(free := len) && !Coherent(o.ring)
                    && (o.sync <==> RECV_DATA_BUFFER_SIZE - len > 1024)
                  else o == BadCopy)
  {
    if len > 0 && ReadContract(g, len) {
      ReadContents(g, len);
    }
  }

  /** The consumer's decoding of the returned number is exact: it exceeds the request exactly
      when bytes remain, and removing the extra one gives the number of bytes copied. */
  lemma ExtraOneIsUnambiguous(g: Ring, len: int)
    requires Coherent(g) && ReadContract(g, len)
    ensures var o := ReadRing(g, len);
            && o.Done?
            && (o.ret > len <==> Contents(o.ring) != [])
            && |o.out| == (if o.ret > len then o.ret - 1 else o.ret)
  {
    ReadContents(g, len);
  }

  /** A request that covers everything stored empties the ring and meets the contract. */
  lemma LargeReadDrains(g: Ring, len: int)
    requires Coherent(g) && len > 0 && |Contents(g)| <= len
    ensures ReadContract(g, len)
    ensures var o := ReadRing(g, len);
            && o.Done? && Coherent(o.ring)
            && o.out == Contents(g) && o.ret == |Contents(g)| && Contents(o.ring) == [] && !o.sync
  {
    ReadContents(g, len);
  }

  // ---------------------------------------------------------------------------
  // The ring object, updated in place
  // ---------------------------------------------------------------------------

  /** `memcpy` between two distinct arrays. */
  method Memcpy(dst: array<Byte>, at: nat, src: array<Byte>, from: nat, n: nat)
    requires dst != src && at + n <= dst.Length && from + n <= src.Length
    modifies dst
    ensures dst[..] == Splice(old(dst[..]), at, src[..][from..from + n])
  {
    forall i | 0 <= i < n {
      dst[at + i] := src[from + i];
    }
  }

  /** The two copies of a wrapped read: the tail of the ring, then its head. */
  method CopyWrapped(dst: array<Byte>, at: nat, src: array<Byte>, from: nat, head: nat)
    requires dst != src && from <= src.Length && head <= src.Length
    requires at + (src.Length - from) + head <= dst.Length
    modifies dst
    ensures dst[..] == Splice(old(dst[..]), at, src[..][from..] + src[..][..head])
  {
    hide Splice;
    var tail := src.Length - from;
    SpliceTwice(dst[..], at, src[..][from..], src[..][..head]);
    assert src[..][from..] == src[..][from..from + tail];
    assert src[..][..head] == src[..][0..0 + head];
    Memcpy(dst, at, src, from, tail);
    Memcpy(dst, at + tail, src, 0, head);
  }

  /** The two copies of a wrapped write: up to the end of the ring, then from its start. */
  method CopySplit(dst: array<Byte>, at: nat, src: array<Byte>, tail: nat, len: nat)
    requires dst != src && at + tail <= dst.Length && tail <= len <= src.Length && len - tail <= dst.Length
    modifies dst
    ensures dst[..] == Splice(Splice(old(dst[..]), at, src[..len][..tail]), 0, src[..len][tail..])
  {
    hide Splice;
    assert src[..len][..tail] == src[..][0..0 + tail];
    assert src[..len][tail..] == src[..][tail..tail + (len - tail)];
    Memcpy(dst, at, src, 0, tail);
    Memcpy(dst, 0, src, tail, len - tail);
  }

  /** Result, bytes and read index of a read of `opLen` bytes, branch by branch; `free` is the
      free count after it. */
  ghost predicate ReadBranch(buf: seq<Byte>, r: nat, w: nat, free: nat, opLen: nat, o: ReadOutcome)
    requires r < RECV_DATA_BUFFER_SIZE == |buf|
  {
    var full := opLen == RECV_DATA_BUFFER_SIZE;
    var tail := RECV_DATA_BUFFER_SIZE - r;
    var more := if free < RECV_DATA_BUFFER_SIZE then 1 else 0;
    && o.Done?
    && (if opLen == 0 && r == w then
          o.ret == 0 && o.out == [] && o.ring.r == r
        else if r < w || (full && r == 0) then
          && opLen <= tail && o.out == buf[r..r + opLen] && o.ret == opLen + more
          && o.ring.r == (if full then r else r + opLen)
        else if r > w || full then
          && 0 <= opLen - tail <= RECV_DATA_BUFFER_SIZE && o.ret == opLen + more
          && o.out == buf[r..] + buf[..opLen - tail]
          && o.ring.r == (if full then r else opLen - tail)
        else
          o.ret == -1 && o.out == [] && o.ring.r == r)
  }

  lemma ReadCases(g: Ring, len: int)
    requires len > 0 && ReadRing(g, len).Done?
    ensures var o, opLen := ReadRing(g, len), Min(len, g.Stored());
            && ReadBranch(g.buf, g.r, g.w, o.ring.free, opLen, o)
            && o.ring.buf == g.buf && o.ring.w == g.w && o.ring.free == g.free + opLen
            && o.sync == (RECV_DATA_BUFFER_SIZE - o.ring.free > SYNC_THRESHOLD)
  {
  }

  /** The bytes copied out exist and fit the caller's buffer. */
  ghost predicate Fits(o: ReadOutcome, room: int) {
    o.Done? && |o.out| <= room
  }

  class RingBuffer {
    // `pRXDataBuffer`; the two pointers into it are kept as offsets
    var pRXDataBuffer: array?<Byte>
    var pDataR: nat
    var pDataW: nat
    var rxDataFreeSize: nat

    ghost predicate Valid()
      reads this, pRXDataBuffer
    {
      pRXDataBuffer != null ==>
        WellShaped(RingFields.Ring(pRXDataBuffer[..], pDataR, pDataW, rxDataFreeSize))
    }

    ghost function View(): (g: Ring)
      reads this, pRXDataBuffer
      requires Valid() && pRXDataBuffer != null
    {
      RingFields.Ring(pRXDataBuffer[..], pDataR, pDataW, rxDataFreeSize)
    }

    /** The set-up before a transfer. */
    constructor ()
      ensures Valid() && pRXDataBuffer != null && fresh(pRXDataBuffer)
      ensures Coherent(View()) && Contents(View()) == []
    {
      var buffer := new Byte[RECV_DATA_BUFFER_SIZE];
      pRXDataBuffer := buffer;
      pDataR, pDataW := 0, 0;
      rxDataFreeSize := RECV_DATA_BUFFER_SIZE;
    }

    /** `sReceiveDataRW(SC_DATA_READ, ...)`. The caller's side of the bargain is that the copies
        stay inside the two buffers; `ReadContract` is enough for the ring's side. */
    method ReadData(pData: array?<Byte>, at: nat, len: int) returns (ret: int, sync: bool)
      requires Valid()
      requires pRXDataBuffer != null && pData != null && len > 0 ==>
                 pData != pRXDataBuffer && Fits(ReadRing(View(), len), pData.Length - at)
      modifies this, pData
      ensures Valid() && pRXDataBuffer == old(pRXDataBuffer)
      ensures old(pRXDataBuffer == null || pData == null || len <= 0) ==>
                ret == -1 && !sync && unchanged(this) && (pData != null ==> unchanged(pData))
      ensures old(pRXDataBuffer != null && pData != null && len > 0) ==>
                var o := old(ReadRing(View(), len));
                && View() == o.ring && ret == o.ret && sync == o.sync
                && pData[..] == Splice(old(pData[..]), at, o.out)
    {
      if pRXDataBuffer == null || pData == null || len <= 0 {
        return -1, false;
      }
      ret, sync := ReadLocked(pData, at, len);
    }

    /** The SC_DATA_READ arm, run under the mutex. */
    method ReadLocked(pData: array<Byte>, at: nat, len: int) returns (ret: int, sync: bool)
      requires Valid() && pRXDataBuffer != null && len > 0 && pData != pRXDataBuffer
      requires Fits(ReadRing(View(), len), pData.Length - at)
      modifies `pDataR, `rxDataFreeSize, pData
      ensures Valid() && View() == old(ReadRing(View(), len)).ring
      ensures var o := old(ReadRing(View(), len));
              ret == o.ret && sync == o.sync && pData[..] == Splice(old(pData[..]), at, o.out)
    {
      ghost var g := View();
      ghost var o := ReadRing(g, len);
      ReadCases(g, len);
      hide Splice, Contents, Coherent, WriteRing, ReadRing, Signals;
      var opLen: nat := if len < RECV_DATA_BUFFER_SIZE - rxDataFreeSize then len
                        else RECV_DATA_BUFFER_SIZE - rxDataFreeSize;
      rxDataFreeSize := rxDataFreeSize + opLen;
      ret := CopyOut(pData, at, opLen, o);
      sync := RECV_DATA_BUFFER_SIZE - rxDataFreeSize > SYNC_THRESHOLD;
      assert View() == o.ring;
    }

    /** The copies of a read of `opLen` bytes and the move of the read pointer. */
    method CopyOut(pData: array<Byte>, at: nat, opLen: nat, ghost o: ReadOutcome) returns (ret: int)
      requires Valid() && pRXDataBuffer != null && pData != pRXDataBuffer && Fits(o, pData.Length - at)
      requires ReadBranch(pRXDataBuffer[..], pDataR, pDataW, rxDataFreeSize, opLen, o)
      modifies `pDataR, pData
      ensures pDataR == o.ring.r && ret == o.ret && pData[..] == Splice(old(pData[..]), at, o.out)
    {
      SpliceNothing(pData[..], at);
      hide Splice, Contents, Coherent, WriteRing, ReadRing, Signals;
      if opLen == 0 && pDataR == pDataW {
        ret := 0;
      } else if pDataR < pDataW || (RECV_DATA_BUFFER_SIZE == opLen && pDataR == 0) {
        Memcpy(pData, at, pRXDataBuffer, pDataR, opLen);
        if RECV_DATA_BUFFER_SIZE != opLen {
          pDataR := pDataR + opLen;
        }
        ret := opLen + (if rxDataFreeSize < RECV_DATA_BUFFER_SIZE then 1 else 0);
      } else if pDataR > pDataW || (opLen == RECV_DATA_BUFFER_SIZE && pDataR != 0) {
        var tailSize := RECV_DATA_BUFFER_SIZE - pDataR;
        var lessLen := opLen - tailSize;
        CopyWrapped(pData, at, pRXDataBuffer, pDataR, lessLen);
        if RECV_DATA_BUFFER_SIZE != opLen {
          pDataR := lessLen;
        }
        ret := opLen + (if rxDataFreeSize < RECV_DATA_BUFFER_SIZE then 1 else 0);
      } else {
        ret := -1;
      }
    }

    /** `sReceiveDataRW(SC_DATA_WRITE, ...)`. */
    method WriteData(pData: array?<Byte>, len: int) returns (ret: int, sync: bool)
      requires Valid() && (pData != null ==> pData != pRXDataBuffer && len <= pData.Length)
      modifies this, pRXDataBuffer
      ensures Valid() && pRXDataBuffer == old(pRXDataBuffer)
      ensures old(pRXDataBuffer == null || pData == null || len <= 0) ==>
                ret == -1 && !sync && unchanged(this)
      ensures pRXDataBuffer != null && pData != null && len > 0 ==>
                var o := WriteRing(old(View()), pData[..len]);
                View() == o.ring && ret == o.ret && sync == o.sync
    {
      if pRXDataBuffer == null || pData == null || len <= 0 {
        return -1, false;
      }
      ret, sync := WriteLocked(pData, len);
    }

    /** The SC_DATA_WRITE arm, run under the mutex. */
    method WriteLocked(pData: array<Byte>, len: int) returns (ret: int, sync: bool)
      requires Valid() && pRXDataBuffer != null && 0 < len <= pData.Length && pData != pRXDataBuffer
      modifies `pDataW, `rxDataFreeSize, pRXDataBuffer
      ensures Valid()
      ensures var o := WriteRing(old(View()), pData[..len]);
              View() == o.ring && ret == o.ret && sync == o.sync
    {
      hide Splice, Contents, Coherent, ReadRing;
      ret := len;
      if rxDataFreeSize < len {
        ret := -1;
      } else {
        rxDataFreeSize := rxDataFreeSize - len;
        var tailSize := RECV_DATA_BUFFER_SIZE - pDataW;
        if tailSize >= len {
          assert pData[..len] == pData[..][0..0 + len];
          Memcpy(pRXDataBuffer, pDataW, pData, 0, len);
          pDataW := pDataW + len;
          if RECV_DATA_BUFFER_SIZE == pDataW {
            pDataW := 0;
          }
        } else {
          CopySplit(pRXDataBuffer, pDataW, pData, tailSize, len);
          pDataW := len - tailSize;
        }
      }
      sync := RECV_DATA_BUFFER_SIZE - rxDataFreeSize > SYNC_THRESHOLD;
    }
  }
}
