/** The HTTP response head: `sc_http_get_head` and `sc_http_get_content_length`. */
module HttpHead {
  import opened Bytes
  import opened CString

  const BUF_SIZE := 2048

  const HTTP_11: seq<Byte> := [72, 84, 84, 80, 47, 49, 46, 49]   // HTTP/1.1
  const HTTP_10: seq<Byte> := [72, 84, 84, 80, 47, 49, 46, 48]   // HTTP/1.0
  const BLANK_LINE: seq<Byte> := [13, 10, 13, 10]
  const ODD_BLANK_LINE: seq<Byte> := [13, 13, 10, 13, 13, 10]
  const FIELD: seq<Byte> :=                                      // content-length:
    [99, 111, 110, 116, 101, 110, 116, 45, 108, 101, 110, 103, 116, 104, 58]

  /** Offset behind the blank line that ends the head. The second form is looked for only when
      the first is nowhere in the buffer. `sc_http_get_head` reports whether there is one. */
  function HeadEnd(mem: seq<Byte>): (s: Search)
    ensures s.Found? ==> 4 <= s.at <= |mem|
  {
    match StrStr(mem, BLANK_LINE, 0)
    case Found(k) => Found(k + |BLANK_LINE|)
    case Overrun => Overrun
    case Absent =>
      match StrStr(mem, ODD_BLANK_LINE, 0)
      case Found(k) => Found(k + |ODD_BLANK_LINE|)
      case other => other
  }

  function SkipSpaces(mem: seq<Byte>, p: nat): Option<nat>
    decreases |mem| - p
  {
    if p >= |mem| then None
    else if mem[p] == SPACE then SkipSpaces(mem, p + 1)
    else Some(p)
  }

  function StatusDigits(mem: seq<Byte>, p: nat, acc: int): Option<int>
    decreases |mem| - p
  {
    if p >= |mem| then None
    else if mem[p] == SPACE || !IsDigit(mem[p]) then Some(acc)
    else StatusDigits(mem, p + 1, 10 * acc + mem[p] - 48)
  }

  function Status(mem: seq<Byte>): Option<int> {
    match SkipSpaces(mem, 8)
    case None => None
    case Some(p) => StatusDigits(mem, p, 0)
  }

  predicate IsHttp(mem: seq<Byte>) {
    |mem| >= 8 && (mem[..8] == HTTP_11 || mem[..8] == HTTP_10)
  }

  /** The buffer after the head, and nothing else, has been lowercased. */
  function LowerHead(mem: seq<Byte>, h: nat): (t: seq<Byte>)
    requires h <= |mem|
    ensures |t| == |mem|
  {
    LowerAll(mem[..h]) + mem[h..]
  }

  /** The value after the field name in a lowercased buffer; -1 without the field. */
  function LengthField(low: seq<Byte>): Option<int> {
    match StrStr(low, FIELD, 0)
    case Overrun => None
    case Absent => Some(-1)
    case Found(k) => Atoi(low, k + |FIELD|)
  }

  datatype Parsed = Parsed(head: int, len: int, mem: seq<Byte>) | Wild

  /** `sc_http_get_content_length`: the head length (the return value), the content length (the
      out-parameter) and the buffer it leaves. `Wild` when a scan leaves the buffer. */
  function ParseHead(mem: seq<Byte>): Parsed
  {
    if !IsHttp(mem) then Parsed(-1, -1, mem)
    else
      match Status(mem)
      case None => Wild
      case Some(status) =>
        if status != 200 then Parsed(-1, -1, mem)
        else
          match HeadEnd(mem)
          case Overrun => Wild
          case Absent => Parsed(-1, -1, mem)
          case Found(h) =>
            match LengthField(LowerHead(mem, h))
            case None => Wild
            case Some(len) => Parsed(h, len, LowerHead(mem, h))
  }

  /** The scanner on the buffer itself. */
  method GetContentLength(buffer: array<Byte>) returns (wild: bool, retValue: int, len: int)
    modifies buffer
    ensures var p := ParseHead(old(buffer[..]));
            && (wild <==> p.Wild?)
            && (!wild ==> p == Parsed(retValue, len, buffer[..]))
  {
    hide Status, HeadEnd, StrStr, Atoi;
    wild, retValue, len := false, -1, -1;
    if !IsHttp(buffer[..]) {
      return;
    }
    var status := ReadStatus(buffer);
    if status == None {
      wild := true;
      return;
    }
    if status.value != 200 {
      return;
    }
    var end := HeadEnd(buffer[..]);
    if end.Overrun? {
      wild := true;
      return;
    }
    if end.Absent? {
      return;
    }
    retValue := end.at;
    LowerInPlace(buffer, end.at);
    var field := StrStr(buffer[..], FIELD, 0);
    if field.Found? {
      var value := Atoi(buffer[..], field.at + |FIELD|);
      if value == None {
        wild := true;
      } else {
        len := value.value;
      }
    } else {
      wild := field.Overrun?;
    }
  }

  /** The loops that read the status. */
  method ReadStatus(buffer: array<Byte>) returns (status: Option<int>)
    requires IsHttp(buffer[..])
    ensures status == Status(buffer[..])
  {
    var p := 8;
    while p < buffer.Length && buffer[p] == SPACE
      invariant 8 <= p <= buffer.Length
      invariant SkipSpaces(buffer[..], 8) == SkipSpaces(buffer[..], p)
    {
      p := p + 1;
    }
    var value: int := 0;
    ghost var digits := p;
    while p < buffer.Length && buffer[p] != SPACE && IsDigit(buffer[p])
      invariant digits <= p <= buffer.Length
      invariant StatusDigits(buffer[..], digits, 0) == StatusDigits(buffer[..], p, value)
    {
      value := 10 * value + buffer[p] - 48;
      p := p + 1;
    }
    status := if p == buffer.Length then None else Some(value);
  }

  /** The lowercasing loop. */
  method LowerInPlace(buffer: array<Byte>, h: nat)
    requires h <= buffer.Length
    modifies buffer
    ensures buffer[..] == LowerHead(old(buffer[..]), h)
  {
    for i := 0 to h
      invariant forall j :: 0 <= j < i ==> buffer[j] == Lower(old(buffer[j]))
      invariant forall j :: i <= j < buffer.Length ==> buffer[j] == old(buffer[j])
    {
      buffer[i] := Lower(buffer[i]);
    }
  }

  // ---------------------------------------------------------------------------
  // Independence from what follows the head
  // ---------------------------------------------------------------------------

  /** A search that succeeds in a prefix succeeds at the same place in the whole. */
  lemma FoundInPrefix(mem: seq<Byte>, pat: seq<Byte>, rest: seq<Byte>)
    ensures StrStr(mem, pat, 0).Found? ==> StrStr(mem + rest, pat, 0) == StrStr(mem, pat, 0)
  {
    match StrStr(mem, pat, 0)
    case Found(k) =>
      StrStrFindsFirst(mem, pat, 0, k);
      forall j | 0 <= j <= k
        ensures Occurs(mem + rest, j, pat) == Occurs(mem, j, pat)
      {
        OccursInPrefix(mem, rest, j, pat);
      }
      StrStrFindsFirst(mem + rest, pat, 0, k);
    case _ =>
  }

  lemma {:induction false} BlanksInPrefix(mem: seq<Byte>, p: nat, rest: seq<Byte>)
    ensures SkipBlanks(mem, p).Some? ==> SkipBlanks(mem + rest, p) == SkipBlanks(mem, p)
    decreases |mem| - p
  {
    if p < |mem| {
      BlanksInPrefix(mem, p + 1, rest);
    }
  }

  lemma {:induction false} DigitsInPrefix(mem: seq<Byte>, p: nat, acc: int, rest: seq<Byte>)
    ensures AtoiDigits(mem, p, acc).Some? ==> AtoiDigits(mem + rest, p, acc) == AtoiDigits(mem, p, acc)
    decreases |mem| - p
  {
    if p < |mem| && IsDigit(mem[p]) {
      DigitsInPrefix(mem, p + 1, 10 * acc + mem[p] - 48, rest);
    }
  }

  lemma AtoiInPrefix(mem: seq<Byte>, p: nat, rest: seq<Byte>)
    ensures Atoi(mem, p).Some? ==> Atoi(mem + rest, p) == Atoi(mem, p)
  {
    BlanksInPrefix(mem, p, rest);
    match SkipBlanks(mem, p)
    case None =>
    case Some(q) =>
      DigitsInPrefix(mem, q + 1, 0, rest);
      DigitsInPrefix(mem, q, 0, rest);
  }

  lemma {:induction false} SpacesInPrefix(mem: seq<Byte>, p: nat, rest: seq<Byte>)
    ensures SkipSpaces(mem, p).Some? ==> SkipSpaces(mem + rest, p) == SkipSpaces(mem, p)
    decreases |mem| - p
  {
    if p < |mem| {
      SpacesInPrefix(mem, p + 1, rest);
    }
  }

  lemma {:induction false} StatusInPrefix(mem: seq<Byte>, p: nat, acc: int, rest: seq<Byte>)
    ensures StatusDigits(mem, p, acc).Some? ==> StatusDigits(mem + rest, p, acc) == StatusDigits(mem, p, acc)
    decreases |mem| - p
  {
    if p < |mem| {
      StatusInPrefix(mem, p + 1, 10 * acc + mem[p] - 48, rest);
    }
  }

  /** A complete head: it ends with its first blank line, has no zero byte before it and no
      blank line of the second form. */
  ghost predicate IsHead(head: seq<Byte>) {
    && |head| >= 4
    && FirstAt(head, BLANK_LINE, 0, |head| - 4)
    && (forall j: nat :: !Occurs(head, j, ODD_BLANK_LINE))
  }

  /** The content length that the head alone gives: None when it has no field, or a field
      without a value. */
  function HeadLength(head: seq<Byte>): Option<int> {
    match StrStr(LowerAll(head), FIELD, 0)
    case Found(k) => Atoi(LowerAll(head), k + |FIELD|)
    case _ => None
  }

  /** A buffer that begins with a complete head: its end is found where it is. */
  lemma HeadEndFound(head: seq<Byte>, rest: seq<Byte>)
    requires IsHead(head)
    ensures HeadEnd(head + rest) == Found(|head|)
  {
    StrStrFindsFirst(head, BLANK_LINE, 0, |head| - 4);
    FoundInPrefix(head, BLANK_LINE, rest);
  }

  /** A buffer that holds only part of a head, then zeros: no end is found. */
  lemma HeadEndNotYet(head: seq<Byte>, got: nat, size: nat)
    requires IsHead(head) && got < |head| && got < size
    ensures HeadEnd(head[..got] + Zeros(size - got)) == Absent
  {
    var mem := head[..got] + Zeros(size - got);
    forall j: nat | j <= got
      ensures !Occurs(mem, j, BLANK_LINE) && !Occurs(mem, j, ODD_BLANK_LINE)
    {
      NoBlankLineYet(head, got, size, j, BLANK_LINE);
      NoBlankLineYet(head, got, size, j, ODD_BLANK_LINE);
    }
    StrStrAbsent(mem, BLANK_LINE, 0, got);
    StrStrAbsent(mem, ODD_BLANK_LINE, 0, got);
  }

  lemma NoBlankLineYet(text: seq<Byte>, got: nat, size: nat, j: nat, pat: seq<Byte>)
    requires got <= |text| && got < size && j <= got && (j + |pat| <= got ==> !Occurs(text, j, pat))
    requires pat == BLANK_LINE || pat == ODD_BLANK_LINE
    ensures !Occurs(text[..got] + Zeros(size - got), j, pat)
  {
    var mem := text[..got] + Zeros(size - got);
    if j + |pat| <= got {
      assert text[j..j + |pat|] == mem[j..j + |pat|];
    } else {
      assert mem[got] == 0;
      assert forall i :: 0 <= i < |pat| ==> pat[i] != 0;
      NotAcross(mem, j, pat, got);
    }
  }

  /** On a buffer that begins with a complete head of status 200 and a Content-Length value, both
      results depend on the head alone, and every byte behind the head is left as it was. */
  lemma ParseDependsOnHeadOnly(head: seq<Byte>, rest: seq<Byte>)
    requires IsHead(head) && IsHttp(head) && Status(head) == Some(200) && HeadLength(head).Some?
    ensures ParseHead(head + rest) == Parsed(|head|, HeadLength(head).value, LowerAll(head) + rest)
  {
    ParseReadsField(head, rest);
    var low := LowerAll(head);
    FoundInPrefix(low, FIELD, rest);
    AtoiInPrefix(low, StrStr(low, FIELD, 0).at + |FIELD|, rest);
  }

  lemma StatusIsKnown(head: seq<Byte>, rest: seq<Byte>)
    requires IsHttp(head) && Status(head).Some?
    ensures IsHttp(head + rest) && Status(head + rest) == Status(head)
  {
    assert (head + rest)[..8] == head[..8];
    SpacesInPrefix(head, 8, rest);
    StatusInPrefix(head, SkipSpaces(head, 8).value, 0, rest);
  }

  lemma ParseReadsField(head: seq<Byte>, rest: seq<Byte>)
    requires IsHead(head) && IsHttp(head) && Status(head) == Some(200)
    ensures var len := LengthField(LowerAll(head) + rest);
            ParseHead(head + rest) ==
            if len == None then Wild else Parsed(|head|, len.value, LowerAll(head) + rest)
  {
    StatusIsKnown(head, rest);
    HeadEndFound(head, rest);
    assert (head + rest)[..|head|] == head && (head + rest)[|head|..] == rest;
  }

  /** The content length is the number that stands behind the first occurrence of the field name
      with its colon, wherever that is in the head, in whatever letter case. */
  lemma HeadLengthIsDecimal(head: seq<Byte>, k: nat, q: nat, sign: seq<Byte>, digits: seq<Byte>)
    requires FirstAt(LowerAll(head), FIELD, 0, k)
    requires k + |FIELD| <= q && NumberAt(head, q, sign, digits)
    requires forall i :: k + |FIELD| <= i < q ==> head[i] == 32 || 9 <= head[i] <= 13
    ensures HeadLength(head) == Some(Number(sign, digits))
  {
    hide StrStr, Atoi, Decimal, LowerAll, FirstAt, Occurs, HeadLength, Number, NumberAt;
    HeadLengthAt(head, k);
    NumberBounds(head, q, sign, digits);
    LoweredNumber(head, q, sign, digits);
    LoweredBlanks(head, k + |FIELD|, q);
    AtoiIsNumber(LowerAll(head), k + |FIELD|, q, sign, digits);
  }

  lemma NumberBounds(head: seq<Byte>, q: nat, sign: seq<Byte>, digits: seq<Byte>)
    requires NumberAt(head, q, sign, digits)
    ensures q < |head|
  {
  }

  /** The letters may be of either case: a text is lowered to a name without capitals exactly when
      it has the same bytes, but for letters 32 below. */
  lemma NameInAnyCase(t: seq<Byte>, name: seq<Byte>)
    requires forall i :: 0 <= i < |name| ==> !(65 <= name[i] <= 90)
    ensures LowerAll(t) == name <==>
              && |t| == |name|
              && forall i :: 0 <= i < |name| ==>
                   t[i] == name[i] || (97 <= name[i] <= 122 && t[i] == name[i] - 32)
  {
    if |t| == |name| {
      assert LowerAll(t) == name <==> forall i :: 0 <= i < |name| ==> Lower(t[i]) == name[i];
    }
  }

  lemma HeadLengthAt(head: seq<Byte>, k: nat)
    requires FirstAt(LowerAll(head), FIELD, 0, k)
    ensures HeadLength(head) == Atoi(LowerAll(head), k + |FIELD|)
  {
    StrStrFindsFirst(LowerAll(head), FIELD, 0, k);
    hide StrStr, Atoi;
  }

  lemma LoweredBlanks(head: seq<Byte>, p: nat, q: nat)
    requires p <= q < |head| && forall i :: p <= i < q ==> IsBlank(head[i])
    ensures forall i :: p <= i < q ==> IsBlank(LowerAll(head)[i])
  {
  }

  lemma LoweredNumber(head: seq<Byte>, q: nat, sign: seq<Byte>, digits: seq<Byte>)
    requires NumberAt(head, q, sign, digits)
    ensures NumberAt(LowerAll(head), q, sign, digits)
  {
    var d := q + |sign|;
    forall i | 0 <= i < |sign|
      ensures LowerAll(head)[q + i] == sign[i]
    {
      assert head[q..d][i] == head[q + i];
    }
    forall i | 0 <= i < |digits|
      ensures LowerAll(head)[d + i] == digits[i]
    {
      assert head[d..d + |digits|][i] == head[d + i];
    }
  }

  // ---------------------------------------------------------------------------
  // The status
  // ---------------------------------------------------------------------------

  lemma {:induction false} SkipSpacesStops(mem: seq<Byte>, p: nat, q: nat)
    requires p <= q < |mem| && mem[q] != SPACE && forall i :: p <= i < q ==> mem[i] == SPACE
    ensures SkipSpaces(mem, p) == Some(q)
    decreases q - p
  {
    if p < q {
      SkipSpacesStops(mem, p + 1, q);
    }
  }

  lemma {:induction false} StatusDigitsIsDecimal(mem: seq<Byte>, p: nat, digits: seq<Byte>, acc: int)
    requires AreDigits(digits) && p + |digits| < |mem|
    requires mem[p..p + |digits|] == digits && !IsDigit(mem[p + |digits|])
    ensures StatusDigits(mem, p, acc) == Some(Decimal(digits, acc))
    decreases |digits|
  {
    if digits != [] {
      assert mem[p] == digits[0];
      assert mem[p + 1..p + 1 + |digits[1..]|] == digits[1..];
      StatusDigitsIsDecimal(mem, p + 1, digits[1..], 10 * acc + digits[0] - 48);
    }
  }

  /** A response that starts with HTTP/1.1 or HTTP/1.0, spaces and digits has the status that
      the digits denote; with any other than 200, and with any other start, it is refused and
      the buffer left alone. */
  lemma StatusIsDecimal(mem: seq<Byte>, q: nat, digits: seq<Byte>)
    requires |mem| >= 8 && (mem[..8] == HTTP_11 || mem[..8] == HTTP_10)
    requires 8 <= q && q + |digits| < |mem| && AreDigits(digits)
    requires forall i :: 8 <= i < q ==> mem[i] == SPACE
    requires mem[q..q + |digits|] == digits && !IsDigit(mem[q + |digits|])
    requires digits == [] ==> mem[q] != SPACE
    ensures IsHttp(mem) && Status(mem) == Some(Decimal(digits, 0))
    ensures Decimal(digits, 0) != 200 ==> ParseHead(mem) == Parsed(-1, -1, mem)
  {
    if digits != [] {
      assert mem[q] == mem[q..q + |digits|][0];
    }
    SkipSpacesStops(mem, 8, q);
    StatusDigitsIsDecimal(mem, q, digits, 0);
    hide Decimal, SkipSpaces, StatusDigits, HeadEnd, LengthField;
  }

  lemma OtherStartsAreRefused(mem: seq<Byte>)
    requires !(HTTP_11 <= mem) && !(HTTP_10 <= mem)
    ensures ParseHead(mem) == Parsed(-1, -1, mem)
  {
  }

  /** Every complete HTTP head has a status. */
  lemma StatusOfHead(head: seq<Byte>)
    requires IsHead(head) && IsHttp(head)
    ensures Status(head).Some?
  {
    var last := |head| - 1;
    HeadEndsInLineFeed(head);
    assert head[..8][7] == head[7];
    SpacesEnd(head, 8);
    DigitsEnd(head, SkipSpaces(head, 8).value, 0);
  }

  lemma HeadEndsInLineFeed(head: seq<Byte>)
    requires IsHead(head)
    ensures head[|head| - 1] == LF && LowerAll(head)[|head| - 1] == LF
    ensures forall j :: 0 <= j < |head| ==> LowerAll(head)[j] != 0
  {
    var tail := head[|head| - 4..|head| - 4 + 4];
    assert tail == BLANK_LINE;
    assert tail[0] == head[|head| - 4] && tail[1] == head[|head| - 3];
    assert tail[2] == head[|head| - 2] && tail[3] == head[|head| - 1];
  }

  lemma {:induction false} SpacesEnd(mem: seq<Byte>, p: nat)
    requires p < |mem| && mem[|mem| - 1] == LF
    ensures SkipSpaces(mem, p).Some? && SkipSpaces(mem, p).value < |mem|
    decreases |mem| - p
  {
    if mem[p] == SPACE {
      SpacesEnd(mem, p + 1);
    }
  }

  lemma {:induction false} DigitsEnd(mem: seq<Byte>, p: nat, acc: int)
    requires p < |mem| && mem[|mem| - 1] == LF
    ensures StatusDigits(mem, p, acc).Some?
    decreases |mem| - p
  {
    if IsDigit(mem[p]) {
      DigitsEnd(mem, p + 1, 10 * acc + mem[p] - 48);
    }
  }

  /** A head that does not start as HTTP does not either with more bytes behind it. */
  lemma StartOfHead(head: seq<Byte>, rest: seq<Byte>)
    requires IsHead(head) && !IsHttp(head)
    ensures !IsHttp(head + rest)
  {
    HeadEndsInLineFeed(head);
    if |head| >= 8 {
      assert (head + rest)[..8] == head[..8];
    } else if |head + rest| >= 8 {
      assert (head + rest)[..8][|head| - 1] == LF;
      assert LF !in HTTP_11 && LF !in HTTP_10;
    }
  }

  // ---------------------------------------------------------------------------
  // The second form of the blank line
  // ---------------------------------------------------------------------------

  /** A head that ends with the second form only: what follows it decides. Its end is found
      unless the first form occurs before the next zero byte; then that one is taken. */
  lemma OddHeadIsFoundIff(head: seq<Byte>, rest: seq<Byte>, z: nat)
    requires |head| >= 6 && FirstAt(head, ODD_BLANK_LINE, 0, |head| - 6)
    requires z < |rest| && rest[z] == 0 && forall i :: 0 <= i < z ==> rest[i] != 0
    ensures HeadEnd(head + rest) == Found(|head|)
            <==> forall j: nat :: j <= |head| + z ==> !Occurs(head + rest, j, BLANK_LINE)
  {
    var mem, e := head + rest, |head| - 6;
    StrStrFindsFirst(head, ODD_BLANK_LINE, 0, e);
    FoundInPrefix(head, ODD_BLANK_LINE, rest);
    NoZeroBefore(head, rest, z);
    OddIsNotBlank(head, rest);
    hide StrStr, Occurs, FirstAt;
    ZeroEndsSearch(mem, BLANK_LINE, 0, |head| + z);
  }

  lemma NoZeroBefore(head: seq<Byte>, rest: seq<Byte>, z: nat)
    requires |head| >= 6 && FirstAt(head, ODD_BLANK_LINE, 0, |head| - 6)
    requires z < |rest| && forall i :: 0 <= i < z ==> rest[i] != 0
    ensures forall i :: 0 <= i < |head| + z ==> (head + rest)[i] != 0
  {
    var e := |head| - 6;
    forall i | e <= i < |head|
      ensures head[i] != 0
    {
      assert head[i] == head[e..e + 6][i - e] == ODD_BLANK_LINE[i - e];
    }
    hide Occurs;
  }

  lemma OddIsNotBlank(head: seq<Byte>, rest: seq<Byte>)
    requires |head| >= 6 && Occurs(head, |head| - 6, ODD_BLANK_LINE)
    ensures !Occurs(head + rest, |head| - 4, BLANK_LINE)
  {
    var mem, e := head + rest, |head| - 6;
    assert head[e..e + 6][3] == mem[e + 3];
    assert |mem| >= e + 6 && mem[e + 2..e + 6][1] == mem[e + 3];
    assert head[e..e + 6][2] == mem[e + 2];
    assert mem[e + 2..e + 6][0] == mem[e + 2];
  }

  /** The search stops at a zero byte at the latest. */
  lemma {:induction false} ZeroEndsSearch(mem: seq<Byte>, pat: seq<Byte>, i: nat, z: nat)
    requires i <= z < |mem| && mem[z] == 0
    requires forall j :: i <= j < z ==> mem[j] != 0
    ensures var s := StrStr(mem, pat, i);
            && (s.Absent? <==> forall j :: i <= j <= z ==> !Occurs(mem, j, pat))
            && (s.Found? ==> i <= s.at <= z && Occurs(mem, s.at, pat))
            && !s.Overrun?
    decreases z - i
  {
    if !Occurs(mem, i, pat) && mem[i] != 0 && i < z {
      ZeroEndsSearch(mem, pat, i + 1, z);
    }
  }
}
