/** Match distances: the code and extra bits the sender chooses from `_dist_code` and
    `base_dist`, and what the receiver rebuilds from `distfix` (section 3.2.5 and the fixed codes
    of section 3.2.6 of RFC 1951). */
module Distances {
  import opened Bytes
  import opened DeflateTables

  const MAX_DISTANCE := 32768

  /** Slot of `_dist_code` that the macro `d_code` reads; `dist` is the distance minus one. */
  function Slot(dist: nat): nat {
    if dist < 256 then dist else 256 + dist / 128
  }

  /** `d_code(dist)` */
  function DCode(dist: nat): nat
    requires dist < MAX_DISTANCE
  {
    DistCode(Slot(dist))
  }

  /** Extra bits of a distance code. */
  function ExtraBits(c: nat): nat {
    if c < 2 then 0 else c / 2 - 1
  }

  /** The unused slots are never read. */
  lemma UnusedSlots(dist: nat)
    requires dist < MAX_DISTANCE
    ensures Slot(dist) < DIST_CODE_LEN && Slot(dist) != 256 && Slot(dist) != 257
  {
  }

  // The two halves of the table as runs of equal entries.
  function LowRun(i: nat): nat {
    if i < 1 then 0 else if i < 2 then 1 else if i < 3 then 2 else if i < 4 then 3
    else if i < 6 then 4 else if i < 8 then 5 else if i < 12 then 6 else if i < 16 then 7
    else if i < 24 then 8 else if i < 32 then 9 else if i < 48 then 10 else if i < 64 then 11
    else if i < 96 then 12 else if i < 128 then 13 else if i < 192 then 14 else 15
  }

  function HighRun(i: nat): nat {
    if i < 258 then 0 else if i < 259 then 16 else if i < 260 then 17
    else if i < 262 then 18 else if i < 264 then 19 else if i < 268 then 20 else if i < 272 then 21
    else if i < 280 then 22 else if i < 288 then 23 else if i < 304 then 24 else if i < 320 then 25
    else if i < 352 then 26 else if i < 384 then 27 else if i < 448 then 28 else 29
  }

  function Run(i: nat): nat {
    if i < 256 then LowRun(i) else HighRun(i)
  }

  lemma Rows0(r: nat, j: nat)
    requires 0 <= r < 4 && j < ROW && ROW * r + j < DIST_CODE_LEN
    ensures DIST_CODE_ROWS[r][j] == Run(ROW * r + j)
  {
  }

  lemma Rows4(r: nat, j: nat)
    requires 4 <= r < 8 && j < ROW && ROW * r + j < DIST_CODE_LEN
    ensures DIST_CODE_ROWS[r][j] == Run(ROW * r + j)
  {
  }

  lemma Rows8(r: nat, j: nat)
    requires 8 <= r < 12 && j < ROW && ROW * r + j < DIST_CODE_LEN
    ensures DIST_CODE_ROWS[r][j] == Run(ROW * r + j)
  {
  }

  lemma Rows12(r: nat, j: nat)
    requires 12 <= r < 16 && j < ROW && ROW * r + j < DIST_CODE_LEN
    ensures DIST_CODE_ROWS[r][j] == Run(ROW * r + j)
  {
  }

  lemma Rows16(r: nat, j: nat)
    requires 16 <= r < 20 && j < ROW && ROW * r + j < DIST_CODE_LEN
    ensures DIST_CODE_ROWS[r][j] == Run(ROW * r + j)
  {
  }

  lemma Rows20(r: nat, j: nat)
    requires 20 <= r < 24 && j < ROW && ROW * r + j < DIST_CODE_LEN
    ensures DIST_CODE_ROWS[r][j] == Run(ROW * r + j)
  {
  }

  lemma Rows24(r: nat, j: nat)
    requires 24 <= r < 26 && j < ROW && ROW * r + j < DIST_CODE_LEN
    ensures DIST_CODE_ROWS[r][j] == Run(ROW * r + j)
  {
  }

  /** The table is its runs. */
  lemma DistCodeIsRun(i: nat)
    requires i < DIST_CODE_LEN
    ensures DistCode(i) == Run(i)
  {
    hide Run;
    var r, j := i / ROW, i % ROW;
    if r < 4 { Rows0(r, j); }
    else if r < 8 { Rows4(r, j); }
    else if r < 12 { Rows8(r, j); }
    else if r < 16 { Rows12(r, j); }
    else if r < 20 { Rows16(r, j); }
    else if r < 24 { Rows20(r, j); }
    else { Rows24(r, j); }
  }

  lemma LowRunCovers(i: nat)
    requires i < 256
    ensures var c := LowRun(i); c < 16 && BaseDist(c) <= i < BaseDist(c + 1)
  {
  }

  lemma HighRunCovers(i: nat)
    requires 258 <= i < DIST_CODE_LEN
    ensures var c := HighRun(i);
            && 16 <= c < D_CODES && BaseDist(c) <= (i - 256) * 128
            && (c + 1 < D_CODES ==> (i - 255) * 128 <= BaseDist(c + 1))
  {
  }

  /** The code of a distance is the one whose base is the last not above it. */
  lemma CodeCovers(dist: nat)
    requires dist < MAX_DISTANCE
    ensures var c := DCode(dist);
            && c < D_CODES && BaseDist(c) <= dist
            && (c + 1 < D_CODES ==> dist < BaseDist(c + 1))
  {
    UnusedSlots(dist);
    DistCodeIsRun(Slot(dist));
    if dist < 256 {
      LowRunCovers(dist);
    } else {
      HighRunCovers(Slot(dist));
    }
    hide LowRun, HighRun, DistCode, BaseDist;
  }

  /** The first distance, minus one, behind those of a code. */
  function DistEnd(c: nat): nat
    requires c < D_CODES
  {
    if c + 1 < D_CODES then BaseDist(c + 1) else MAX_DISTANCE
  }

  lemma BasesRise(c: nat)
    requires c < D_CODES
    ensures BaseDist(c) < DistEnd(c) <= MAX_DISTANCE
  {
  }

  lemma {:induction false} EndsBefore(c: nat, d: nat)
    requires c < d < D_CODES
    ensures DistEnd(c) <= BaseDist(d)
    decreases d
  {
    hide BaseDist;
    if c + 1 < d {
      EndsBefore(c, d - 1);
      BasesRise(d - 1);
    }
  }

  /** A code stands for the distances from its base up to the next base, and for no others. */
  lemma CodeIff(dist: nat, c: nat)
    requires dist < MAX_DISTANCE && c < D_CODES
    ensures DCode(dist) == c <==> BaseDist(c) <= dist < DistEnd(c)
  {
    hide DCode, BaseDist;
    var d := DCode(dist);
    CodeCovers(dist);
    if c < d {
      EndsBefore(c, d);
    } else if d < c {
      EndsBefore(d, c);
    }
  }

  // ---------------------------------------------------------------------------
  // Agreement of sender and receiver tables
  // ---------------------------------------------------------------------------

  lemma PowersOfTwo()
    ensures Pow2(0) == 1 && Pow2(1) == 2 && Pow2(2) == 4 && Pow2(3) == 8 && Pow2(4) == 16 && Pow2(5) == 32
    ensures Pow2(6) == 64 && Pow2(7) == 128 && Pow2(8) == 256 && Pow2(9) == 512 && Pow2(10) == 1024
    ensures Pow2(11) == 2048 && Pow2(12) == 4096 && Pow2(13) == 8192
  {
    assert Pow2(3) == 8;
    assert Pow2(6) == 64;
    assert Pow2(9) == 512;
    assert Pow2(12) == 4096;
  }

  /** The extra bits fill the gap up to the next base. */
  lemma ExtraBitsFillGap(c: nat)
    requires c < D_CODES
    ensures BaseDist(c) + Pow2(ExtraBits(c)) == if c + 1 < D_CODES then BaseDist(c + 1) else MAX_DISTANCE
  {
    hide Pow2;
    PowersOfTwo();
  }

  ghost predicate EntryAgrees(c: nat)
    requires c < D_CODES
  {
    DtreeCode(c) < 32 && FixEntry(DtreeCode(c)) == Code(16 + ExtraBits(c), 5, BaseDist(c) + 1)
  }

  lemma Entries0(c: nat)
    requires 0 <= c < 6
    ensures EntryAgrees(c)
  {
  }

  lemma Entries6(c: nat)
    requires 6 <= c < 12
    ensures EntryAgrees(c)
  {
  }

  lemma Entries12(c: nat)
    requires 12 <= c < 18
    ensures EntryAgrees(c)
  {
  }

  lemma Entries18(c: nat)
    requires 18 <= c < 24
    ensures EntryAgrees(c)
  {
  }

  lemma Entries24(c: nat)
    requires 24 <= c < 30
    ensures EntryAgrees(c)
  {
  }

  /** The decoding table has, under each fixed code, its extra bits and its base plus one. */
  lemma FixedEntry(c: nat)
    requires c < D_CODES
    ensures EntryAgrees(c)
  {
    hide EntryAgrees;
    if c < 6 { Entries0(c); }
    else if c < 12 { Entries6(c); }
    else if c < 18 { Entries12(c); }
    else if c < 24 { Entries18(c); }
    else { Entries24(c); }
  }

  /** For every distance the offset fits the extra bits of its code, and the receiver's base
      plus the offset is the distance. */
  lemma TablesAgree(distance: nat)
    requires 1 <= distance <= MAX_DISTANCE
    ensures var c := DCode(distance - 1);
            && c < D_CODES && DtreeCode(c) < 32
            && var entry, offset := FixEntry(DtreeCode(c)), distance - 1 - BaseDist(c);
               && entry.op == 16 + ExtraBits(c) && entry.bits == 5
               && 0 <= offset < Pow2(ExtraBits(c))
               && entry.val + offset == distance
  {
    var c := DCode(distance - 1);
    hide DCode, Pow2, ExtraBits, BaseDist, DtreeCode, FixEntry;
    CodeCovers(distance - 1);
    ExtraBitsFillGap(c);
    FixedEntry(c);
  }

  // ---------------------------------------------------------------------------
  // The bit stream
  // ---------------------------------------------------------------------------

  /** The lowest `n` bits of `v`, lowest first, as the bit buffer sends them. */
  function Bits(v: nat, n: nat): (s: seq<bool>)
    ensures |s| == n
  {
    if n == 0 then [] else [v % 2 == 1] + Bits(v / 2, n - 1)
  }

  function Value(s: seq<bool>): nat {
    if s == [] then 0 else (if s[0] then 1 else 0) + 2 * Value(s[1..])
  }

  lemma {:induction false} ValueOfBits(v: nat, n: nat)
    requires v < Pow2(n)
    ensures Value(Bits(v, n)) == v
    decreases n
  {
    if n > 0 {
      ValueOfBits(v / 2, n - 1);
      assert Bits(v, n)[1..] == Bits(v / 2, n - 1);
    }
  }

  /** Bit `i` of the value goes out in place `i`. */
  lemma {:induction false} BitAt(v: nat, n: nat, i: nat)
    requires i < n
    ensures Bits(v, n)[i] == (v / Pow2(i) % 2 == 1)
    decreases i
  {
    if i > 0 {
      BitAt(v / 2, n - 1, i - 1);
      hide Bits;
      HalfQuotient(v, Pow2(i - 1));
    }
  }

  lemma HalfQuotient(v: nat, p: nat)
    requires p > 0
    ensures v / (2 * p) == v / 2 / p
  {
    var q, m := v / 2 / p, v / 2 % p;
    assert v == 2 * p * q + 2 * m + v % 2;
    assert 2 * m + v % 2 < 2 * p;
    QuotientIs(v, 2 * p, q, 2 * m + v % 2);
  }

  lemma QuotientIs(v: nat, d: nat, q: nat, m: nat)
    requires m < d && v == d * q + m
    ensures v / d == q
  {
    var e, k := v / d, q - v / d;
    assert v == d * e + v % d && d * q == d * e + d * k;
    MultipleIsFar(d, k);
  }

  lemma MultipleIsFar(d: nat, k: int)
    ensures (k > 0 ==> d * k >= d) && (k < 0 ==> d * k + d <= 0)
  {
  }

  lemma {:induction false} BitsOfValue(s: seq<bool>)
    ensures Value(s) < Pow2(|s|) && Bits(Value(s), |s|) == s
    decreases |s|
  {
    if s != [] {
      BitsOfValue(s[1..]);
      assert s == [s[0]] + s[1..];
    }
  }

  /** A distance on the wire: the five-bit fixed code, then the offset in the extra bits. */
  function Send(distance: nat): seq<bool>
    requires 1 <= distance <= MAX_DISTANCE
  {
    TablesAgree(distance);
    var c := DCode(distance - 1);
    Bits(DtreeCode(c), 5) + Bits(distance - 1 - BaseDist(c), ExtraBits(c))
  }

  datatype Received = Received(distance: nat, rest: seq<bool>) | Invalid

  /** What the receiver does: look five bits up in `distfix`, refuse entries that are no
      distance, add the extra bits to the base. */
  function Receive(stream: seq<bool>): Received {
    if |stream| < 5 || Value(stream[..5]) >= 32 then Invalid
    else
      var entry := FixEntry(Value(stream[..5]));
      if !(16 <= entry.op < 32) || |stream| < 5 + (entry.op - 16) then Invalid
      else
        var extra := entry.op - 16;
        Received(entry.val + Value(stream[5..5 + extra]), stream[5 + extra..])
  }

  /** The code that stands behind an entry: the five bits in the opposite order. */
  function CodeOf(v: nat): nat {
    16 * (v % 2) + 8 * (v / 2 % 2) + 4 * (v / 4 % 2) + 2 * (v / 8 % 2) + v / 16
  }

  ghost predicate HasCode(v: nat) {
    CodeOf(v) < D_CODES && DtreeCode(CodeOf(v)) == v
  }

  lemma CodesOf0(v: nat)
    requires v < 8
    ensures HasCode(v)
  {
  }

  lemma CodesOf8(v: nat)
    requires 8 <= v < 15
    ensures HasCode(v)
  {
  }

  lemma CodesOf16(v: nat)
    requires 16 <= v < 24
    ensures HasCode(v)
  {
  }

  lemma CodesOf24(v: nat)
    requires 24 <= v < 31
    ensures HasCode(v)
  {
  }

  /** Every entry that is a distance belongs to a code. */
  lemma EntryHasCode(v: nat)
    requires v < 32 && 16 <= FixEntry(v).op < 32
    ensures var c := CodeOf(v);
            c < D_CODES && DtreeCode(c) == v && FixEntry(v) == Code(16 + ExtraBits(c), 5, BaseDist(c) + 1)
  {
    assert FixEntry(15).op == FixEntry(31).op == 64;
    if v < 8 { CodesOf0(v); }
    else if v < 16 { CodesOf8(v); }
    else if v < 24 { CodesOf16(v); }
    else { CodesOf24(v); }
    hide CodeOf, DtreeCode, BaseDist, FixEntry;
    FixedEntry(CodeOf(v));
  }

  /** The other way round: whatever the receiver accepts is what the sender sends for the
      distance, which is one of 1 to 32768. */
  lemma SendUndoesReceive(stream: seq<bool>)
    requires Receive(stream).Received?
    ensures var r := Receive(stream);
            1 <= r.distance <= MAX_DISTANCE && stream == Send(r.distance) + r.rest
  {
    hide CodeOf, DtreeCode, BaseDist, DCode, Pow2, Value, Bits, FixEntry, ExtraBits;
    var v, r := Value(stream[..5]), Receive(stream);
    var c := CodeOf(v);
    EntryHasCode(v);
    var extra := ExtraBits(c);
    BitsOfValue(stream[..5]);
    BitsOfValue(stream[5..5 + extra]);
    ExtraBitsFillGap(c);
    BasesRise(c);
    CodeIff(r.distance - 1, c);
    assert stream == stream[..5] + stream[5..5 + extra] + stream[5 + extra..];
  }

  predicate AreDistances(ds: seq<nat>) {
    forall i :: 0 <= i < |ds| ==> 1 <= ds[i] <= MAX_DISTANCE
  }

  function SendAll(ds: seq<nat>): seq<bool>
    requires AreDistances(ds)
    decreases |ds|
  {
    if ds == [] then [] else Send(ds[0]) + SendAll(ds[1..])
  }

  /** Up to `n` distances off the stream; an invalid one ends the reading. */
  function ReceiveAll(stream: seq<bool>, n: nat): seq<Received>
    decreases n
  {
    if n == 0 then []
    else
      var r := Receive(stream);
      [r] + (if r.Invalid? then [] else ReceiveAll(r.rest, n - 1))
  }

  /** The receiver on a stream given in its parts. */
  lemma ReceiveParts(code: seq<bool>, extra: seq<bool>, rest: seq<bool>)
    requires |code| == 5 && Value(code) < 32
    requires FixEntry(Value(code)).op == 16 + |extra| && |extra| < 16
    ensures Receive(code + extra + rest) == Received(FixEntry(Value(code)).val + Value(extra), rest)
  {
    hide Value, FixEntry;
    var stream := code + extra + rest;
    assert stream[..5] == code;
    assert stream[5..5 + |extra|] == extra;
    assert stream[5 + |extra|..] == rest;
  }

  lemma ReceiveUndoesSend(distance: nat, rest: seq<bool>)
    requires 1 <= distance <= MAX_DISTANCE
    ensures Receive(Send(distance) + rest) == Received(distance, rest)
  {
    hide DCode, Pow2, Bits, Value, BaseDist, DtreeCode, FixEntry, Receive;
    TablesAgree(distance);
    var c := DCode(distance - 1);
    PowersOfTwo();
    ValueOfBits(DtreeCode(c), 5);
    ValueOfBits(distance - 1 - BaseDist(c), ExtraBits(c));
    ReceiveParts(Bits(DtreeCode(c), 5), Bits(distance - 1 - BaseDist(c), ExtraBits(c)), rest);
  }

  /** Main result: every sequence of distances comes back from its bits, in order, and the bits
      that follow are left for the next reader. */
  lemma {:induction false} DistancesRoundTrip(ds: seq<nat>, rest: seq<bool>)
    requires AreDistances(ds)
    ensures var got := ReceiveAll(SendAll(ds) + rest, |ds|);
            && |got| == |ds|
            && (forall i :: 0 <= i < |ds| ==> got[i].Received? && got[i].distance == ds[i])
            && (ds != [] ==> got[|ds| - 1].rest == rest)
    decreases |ds|
  {
    hide Receive, Send;
    if ds != [] {
      var tail := SendAll(ds[1..]) + rest;
      assert SendAll(ds) + rest == Send(ds[0]) + tail;
      ReceiveUndoesSend(ds[0], tail);
      DistancesRoundTrip(ds[1..], rest);
      assert ds[1..] == [] ==> tail == rest;
    }
  }

  // ---------------------------------------------------------------------------
  // Match lengths
  // ---------------------------------------------------------------------------

  /** `_length_code[len]`; `len` is the match length minus three. */
  function LengthCode(len: nat): nat
    requires len < 256
  {
    LENGTH_CODE_ROWS[len / ROW][len % ROW]
  }

  function LengthRun(i: nat): nat {
    if i < 8 then i
    else if i < 10 then 8 else if i < 12 then 9 else if i < 14 then 10 else if i < 16 then 11
    else if i < 20 then 12 else if i < 24 then 13 else if i < 28 then 14 else if i < 32 then 15
    else if i < 40 then 16 else if i < 48 then 17 else if i < 56 then 18 else if i < 64 then 19
    else if i < 80 then 20 else if i < 96 then 21 else if i < 112 then 22 else if i < 128 then 23
    else if i < 160 then 24 else if i < 192 then 25 else if i < 224 then 26 else if i < 255 then 27 else 28
  }

  lemma LengthRows0(r: nat, j: nat)
    requires r < 4 && j < ROW
    ensures LENGTH_CODE_ROWS[r][j] == LengthRun(ROW * r + j)
  {
  }

  lemma LengthRows4(r: nat, j: nat)
    requires 4 <= r < 8 && j < ROW
    ensures LENGTH_CODE_ROWS[r][j] == LengthRun(ROW * r + j)
  {
  }

  lemma LengthRows8(r: nat, j: nat)
    requires 8 <= r < 13 && j < ROW && ROW * r + j < 256
    ensures LENGTH_CODE_ROWS[r][j] == LengthRun(ROW * r + j)
  {
  }

  function LengthExtraBits(c: nat): nat {
    if c < 8 || c == 28 then 0 else c / 4 - 1
  }

  lemma LengthRunCovers(len: nat)
    requires len < 256
    ensures var c := LengthRun(len);
            && c < LENGTH_CODES
            && (c == 28 <==> len == 255)
            && (c < 28 ==> BASE_LENGTH[c] <= len < BASE_LENGTH[c] + Pow2(LengthExtraBits(c)))
  {
    PowersOfTwo();
    hide Pow2;
  }

  /** The length code covers its length: base and extra bits reach it; the longest match alone
      has the last code. */
  lemma LengthCodeCovers(len: nat)
    requires len < 256
    ensures var c := LengthCode(len);
            && c < LENGTH_CODES
            && (c == 28 <==> len == 255)
            && (c < 28 ==> BASE_LENGTH[c] <= len < BASE_LENGTH[c] + Pow2(LengthExtraBits(c)))
  {
    var r, j := len / ROW, len % ROW;
    LengthRunCovers(len);
    hide LengthRun, Pow2, LengthExtraBits;
    if r < 4 { LengthRows0(r, j); } else if r < 8 { LengthRows4(r, j); } else { LengthRows8(r, j); }
  }

  /** The lengths, minus three, of a code: from its base as many as its extra bits reach, but
      for the longest match, which has a code of its own. */
  function LengthBegin(c: nat): nat
    requires c < LENGTH_CODES
  {
    if c == 28 then 255 else BASE_LENGTH[c]
  }

  function LengthEnd(c: nat): nat
    requires c < LENGTH_CODES
  {
    if c == 28 then 256 else if c == 27 then 255 else BASE_LENGTH[c] + Pow2(LengthExtraBits(c))
  }

  lemma LengthsAdjoin(c: nat)
    requires c < LENGTH_CODES
    ensures LengthBegin(c) < LengthEnd(c)
    ensures c + 1 < LENGTH_CODES ==> LengthEnd(c) == LengthBegin(c + 1)
  {
    PowersOfTwo();
    hide Pow2;
  }

  lemma {:induction false} LengthEndsBefore(c: nat, d: nat)
    requires c < d < LENGTH_CODES
    ensures LengthEnd(c) <= LengthBegin(d)
    decreases d
  {
    LengthsAdjoin(d - 1);
    hide LengthEnd, LengthBegin;
    if c + 1 < d {
      LengthEndsBefore(c, d - 1);
    }
  }

  /** A length code stands for exactly these lengths; in particular its base is the smallest. */
  lemma LengthCodeIff(len: nat, c: nat)
    requires len < 256 && c < LENGTH_CODES
    ensures LengthCode(len) == c <==> LengthBegin(c) <= len < LengthEnd(c)
  {
    var d := LengthCode(len);
    LengthCodeCovers(len);
    hide LengthCode, Pow2, LengthExtraBits;
    assert LengthBegin(d) <= len < LengthEnd(d);
    hide LengthBegin, LengthEnd;
    if c < d {
      LengthEndsBefore(c, d);
    } else if d < c {
      LengthEndsBefore(d, c);
    }
  }
}
