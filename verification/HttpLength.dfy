/** Where the content length comes from: exactly when the text the scanner finds is the
    Content-Length field, and exactly when the length depends on the head alone. */
module HttpLength {
  import opened Bytes
  import opened CString
  import opened HttpHead

  // ---------------------------------------------------------------------------
  // Exactly when the occurrence found is the Content-Length field
  // ---------------------------------------------------------------------------

  /** The field name stands at the start of a line: the Content-Length field that section 6.3 of
      RFC 9112 refers to. */
  ghost predicate FieldLine(head: seq<Byte>, k: nat) {
    && k >= 2 && Occurs(LowerAll(head), k, FIELD)
    && head[k - 2] == CR && head[k - 1] == LF
  }

  ghost predicate FirstFieldLine(head: seq<Byte>, k: nat) {
    FieldLine(head, k) && forall j: nat :: j < k ==> !FieldLine(head, j)
  }

  /** The scanner reads the value of the first Content-Length field if and only if the text of
      the name with its colon occurs nowhere before that field; otherwise it reads what follows
      the first such text, which does not start a line. */
  lemma FieldIsReadIff(head: seq<Byte>, k: nat)
    requires IsHead(head) && FirstFieldLine(head, k)
    ensures StrStr(LowerAll(head), FIELD, 0) == Found(k)
            <==> forall j: nat :: j < k ==> !Occurs(LowerAll(head), j, FIELD)
    ensures var s := StrStr(LowerAll(head), FIELD, 0); s.Found? && (s.at == k || (s.at < k && !FieldLine(head, s.at)))
    ensures HeadLength(head) == Atoi(LowerAll(head), StrStr(LowerAll(head), FIELD, 0).at + |FIELD|)
  {
    var low := LowerAll(head);
    HeadEndsInLineFeed(head);
    hide LowerAll;
    FoundUpTo(low, FIELD, 0, k);
    hide IsHead, FieldLine;
    StrStrFindsFirst(low, FIELD, 0, k);
    StrStrFindsFirst(low, FIELD, 0, StrStr(low, FIELD, 0).at);
    hide StrStr, Occurs;
  }

  /** Before a zero byte, an occurrence bounds what the search finds. */
  lemma {:induction false} FoundUpTo(mem: seq<Byte>, pat: seq<Byte>, i: nat, k: nat)
    requires i <= k && Occurs(mem, k, pat) && forall j :: i <= j < k ==> mem[j] != 0
    ensures StrStr(mem, pat, i).Found? && StrStr(mem, pat, i).at <= k
    decreases k - i
  {
    if i < k {
      FoundUpTo(mem, pat, i + 1, k);
    }
  }

  /** A head of three lines. */
  function ThreeLines(a: seq<Byte>, b: seq<Byte>, c: seq<Byte>): seq<Byte> {
    a + [CR, LF] + b + [CR, LF] + c + BLANK_LINE
  }

  predicate IsLine(line: seq<Byte>) {
    line != [] && CR !in line && LF !in line && 0 !in line
  }

  lemma ThreeLinesPieces(a: seq<Byte>, b: seq<Byte>, c: seq<Byte>)
    requires IsLine(a) && IsLine(b) && IsLine(c)
    ensures var head := ThreeLines(a, b, c);
            var i, k := |a|, |a| + 2 + |b|;
            var n := k + 2 + |c|;
            && |head| == n + 4
            && head[..i] == a && head[i + 2..k] == b && head[k + 2..n] == c && head[n..] == BLANK_LINE
            && head[k] == head[n] == CR && head[k + 1] == LF
            && (forall j :: 0 <= j < |head| ==> head[j] != 0)
            && (forall j :: 0 <= j < |head| ==> (head[j] == CR <==> j == i || j == k || j == n || j == n + 2))
            && (forall j :: 0 <= j < |head| ==>
                  (head[j] == LF <==> j == i + 1 || j == k + 1 || j == n + 1 || j == n + 3))
  {
    var head := ThreeLines(a, b, c);
    var i, k := |a|, |a| + 2 + |b|;
    var n := k + 2 + |c|;
    assert head[..i] == a && head[i + 2..k] == b && head[k + 2..n] == c && head[n..] == BLANK_LINE;
  }

  lemma ThreeLinesAreHead(a: seq<Byte>, b: seq<Byte>, c: seq<Byte>)
    requires IsLine(a) && IsLine(b) && IsLine(c)
    ensures IsHead(ThreeLines(a, b, c))
  {
    var head := ThreeLines(a, b, c);
    ThreeLinesPieces(a, b, c);
    hide ThreeLines, IsLine;
    assert head[|head| - 4..|head| - 4 + 4] == BLANK_LINE;
    BlankLineAtEnd(head, |a|, |a| + 2 + |b|);
  }

  lemma BlankLineAtEnd(head: seq<Byte>, i: nat, k: nat)
    requires i + 2 < k && k + 2 < |head| - 4
    requires forall j :: 0 <= j < |head| ==>
               (head[j] == CR <==> j == i || j == k || j == |head| - 4 || j == |head| - 2)
    requires forall j :: 0 <= j < |head| ==>
               (head[j] == LF <==> j == i + 1 || j == k + 1 || j == |head| - 3 || j == |head| - 1)
    ensures forall j: nat :: j < |head| - 4 ==> !Occurs(head, j, BLANK_LINE)
    ensures forall j: nat :: !Occurs(head, j, ODD_BLANK_LINE)
  {
    forall j: nat | j < |head| - 4
      ensures !Occurs(head, j, BLANK_LINE)
    {
      assert head[j..j + 4][1] == head[j + 1] && head[j..j + 4][2] == head[j + 2];
    }
    forall j: nat
      ensures !Occurs(head, j, ODD_BLANK_LINE)
    {
      assert j + 6 <= |head| ==> head[j..j + 6][0] == head[j] && head[j..j + 6][1] == head[j + 1];
    }
  }

  const CONTENT_LENGTH: seq<Byte> :=                                        // Content-Length:
    [67, 111, 110, 116, 101, 110, 116, 45, 76, 101, 110, 103, 116, 104, 58]
  const STATUS_LINE: seq<Byte> :=                                           // HTTP/1.1 200 OK
    [72, 84, 84, 80, 47, 49, 46, 49, 32, 50, 48, 48, 32, 79, 75]
  const X_OLD: seq<Byte> := [88, 45, 79, 108, 100, 45]                      // X-Old-

  /** A line with the name behind some text `x`, and the digit `d` as its value. */
  function Line(x: seq<Byte>, d: Byte): (line: seq<Byte>)
    ensures |line| == |x| + |CONTENT_LENGTH| + 2
  {
    x + CONTENT_LENGTH + [SPACE, d]
  }

  /** A head with an X-Old-Content-Length of 9 before its Content-Length of 7. */
  const TWO_LENGTHS: seq<Byte> := ThreeLines(STATUS_LINE, Line(X_OLD, 57), Line([], 55))

  /** The scanner reads 9. */
  lemma OtherFieldIsRead()
    ensures IsHead(TWO_LENGTHS) && IsHttp(TWO_LENGTHS) && Status(TWO_LENGTHS) == Some(200)
    ensures FirstFieldLine(TWO_LENGTHS, 42) && Atoi(LowerAll(TWO_LENGTHS), 57) == Some(7)
    ensures HeadLength(TWO_LENGTHS) == Some(9)
  {
    hide IsHead, IsHttp, Status, HeadLength, FirstFieldLine, Atoi, ThreeLines, Line, IsLine, LowerAll;
    TwoLengthsStatus();
    TwoLengthsLines();
    TwoLengthsNames();
    SecondLineIsRead(STATUS_LINE, X_OLD, 57, 55);
  }

  lemma TwoLengthsLines()
    ensures IsLine(STATUS_LINE) && IsLine(Line(X_OLD, 57)) && IsLine(Line([], 55))
  {
    hide Line;
    LineIsLine(X_OLD, 57);
    LineIsLine([], 55);
  }

  lemma TwoLengthsNames()
    ensures 99 !in LowerAll(STATUS_LINE) && 99 !in LowerAll(X_OLD)
  {
    hide LowerAll;
    NotLowered(STATUS_LINE);
    NotLowered(X_OLD);
  }

  lemma NotLowered(s: seq<Byte>)
    requires 67 !in s && 99 !in s
    ensures 99 !in LowerAll(s)
  {
  }

  lemma LineIsLine(x: seq<Byte>, d: Byte)
    requires CR !in x && LF !in x && 0 !in x && IsDigit(d)
    ensures IsLine(Line(x, d))
  {
  }

  lemma TwoLengthsStatus()
    ensures IsHttp(TWO_LENGTHS) && Status(TWO_LENGTHS) == Some(200)
  {
    var head := STATUS_LINE;
    assert head[..8] == HTTP_11;
    assert StatusDigits(head, 12, 200) == Some(200);
    assert StatusDigits(head, 11, 20) == Some(200);
    assert StatusDigits(head, 10, 2) == Some(200);
    assert SkipSpaces(head, 9) == Some(9);
    assert TWO_LENGTHS == head + TWO_LENGTHS[|head|..];
    StatusIsKnown(head, TWO_LENGTHS[|head|..]);
  }

  /** Text in front of the name in the second line: the name is found there, while the first
      field is the third line. */
  lemma SecondLineIsFound(a: seq<Byte>, x: seq<Byte>, d: Byte, e: Byte)
    requires IsLine(a) && IsLine(Line(x, d)) && IsLine(Line([], e))
    requires x != [] && 99 !in LowerAll(a) && 99 !in LowerAll(x)
    ensures var head := ThreeLines(a, Line(x, d), Line([], e));
            && FirstAt(LowerAll(head), FIELD, 0, |a| + 2 + |x|)
            && FirstFieldLine(head, |a| + 2 + |Line(x, d)| + 2)
  {
    hide ThreeLines, IsLine, LowerAll, Occurs, Line, FirstFieldLine;
    var b, c := Line(x, d), Line([], e);
    var head, i := ThreeLines(a, b, c), |a|;
    ThreeLinesPieces(a, b, c);
    LineStarts(head, i + 2, x, d);
    NameIsLowered(head, i + 2, x, d);
    NameIsLowered(head, i + 2 + |b| + 2, [], e);
    NoNameBefore(head, a, x);
    FirstFieldIs(head, i + 2, i + 2 + |b| + 2);
    NoZeros(head);
  }

  lemma LineStarts(head: seq<Byte>, from: nat, x: seq<Byte>, d: Byte)
    requires from + |Line(x, d)| <= |head| && head[from..from + |Line(x, d)|] == Line(x, d)
    ensures head[from..from + |x|] == x
  {
    assert head[from..from + |x|] == head[from..from + |Line(x, d)|][..|x|];
  }

  lemma NoZeros(head: seq<Byte>)
    requires forall j :: 0 <= j < |head| ==> head[j] != 0
    ensures forall j :: 0 <= j < |head| ==> LowerAll(head)[j] != 0
  {
  }

  /** A field at `k` is the first one if the only other line start before it has no name. */
  lemma FirstFieldIs(head: seq<Byte>, i: nat, k: nat)
    requires 2 <= k <= |head| && head[k - 2] == CR && Occurs(LowerAll(head), k, FIELD)
    requires forall j :: 0 <= j < k ==> (head[j] == LF <==> j == i - 1 || j == k - 1)
    requires !Occurs(LowerAll(head), i, FIELD)
    ensures FirstFieldLine(head, k)
  {
    hide Occurs, LowerAll;
  }

  lemma NoNameBefore(head: seq<Byte>, a: seq<Byte>, x: seq<Byte>)
    requires |a| + 2 + |x| <= |head| && head[..|a|] == a && head[|a| + 2..|a| + 2 + |x|] == x
    requires head[|a|] == CR && head[|a| + 1] == LF && 99 !in LowerAll(a) && 99 !in LowerAll(x)
    ensures forall j: nat :: j < |a| + 2 + |x| ==> !Occurs(LowerAll(head), j, FIELD)
  {
    forall j: nat | j < |a| + 2 + |x|
      ensures !Occurs(LowerAll(head), j, FIELD)
    {
      var b := LowerAll(head)[j];
      if j < |a| {
        assert b == LowerAll(a)[j];
      } else if j >= |a| + 2 {
        assert head[|a| + 2..|a| + 2 + |x|][j - |a| - 2] == head[j];
        assert b == LowerAll(x)[j - |a| - 2];
      }
      assert b != FIELD[0];
      assert j + 15 <= |head| ==> LowerAll(head)[j..j + 15][0] == b;
    }
  }

  lemma NameIsLowered(head: seq<Byte>, from: nat, x: seq<Byte>, d: Byte)
    requires from + |Line(x, d)| <= |head| && head[from..from + |Line(x, d)|] == Line(x, d)
    ensures Occurs(LowerAll(head), from + |x|, FIELD)
  {
    forall i | 0 <= i < 15
      ensures LowerAll(head)[from + |x| + i] == FIELD[i]
    {
      assert Line(x, d)[|x| + i] == CONTENT_LENGTH[i];
      assert head[from..from + |Line(x, d)|][|x| + i] == head[from + |x| + i];
    }
    assert LowerAll(head)[from + |x|..from + |x| + 15] == FIELD;
  }

  /** The value of the second line is read, whatever the third line says. */
  lemma SecondLineIsRead(a: seq<Byte>, x: seq<Byte>, d: Byte, e: Byte)
    requires IsLine(a) && IsLine(Line(x, d)) && IsLine(Line([], e)) && IsDigit(d) && IsDigit(e)
    requires x != [] && 99 !in LowerAll(a) && 99 !in LowerAll(x)
    ensures var head := ThreeLines(a, Line(x, d), Line([], e));
            var k := |a| + 2 + |Line(x, d)| + 2;
            && IsHead(head) && HeadLength(head) == Some(d - 48)
            && FirstFieldLine(head, k) && Atoi(LowerAll(head), k + |FIELD|) == Some(e - 48)
  {
    hide FirstFieldLine, FirstAt, ThreeLines, IsLine, IsHead, Occurs, LowerAll, Atoi, HeadLength;
    var b, c := Line(x, d), Line([], e);
    var head := ThreeLines(a, b, c);
    SecondLineIsFound(a, x, d, e);
    ThreeLinesAreHead(a, b, c);
    ThreeLinesPieces(a, b, c);
    ValueIsDigit(head, |a| + 2, b, d);
    ValueIsDigit(head, |a| + 2 + |b| + 2, c, e);
    HeadLengthAt(head, |a| + 2 + |x|);
  }

  /** A line that ends in a blank and a digit. */
  lemma ValueIsDigit(head: seq<Byte>, from: nat, line: seq<Byte>, digit: Byte)
    requires from + |line| < |head| && head[from..from + |line|] == line && head[from + |line|] == CR
    requires |line| >= 2 && line[|line| - 2] == SPACE && line[|line| - 1] == digit && IsDigit(digit)
    ensures Atoi(LowerAll(head), from + |line| - 2) == Some(digit - 48)
  {
    var low, p := LowerAll(head), from + |line| - 2;
    assert head[p] == line[|line| - 2] && head[p + 1] == line[|line| - 1];
    assert SkipBlanks(low, p + 1) == Some(p + 1);
    assert AtoiDigits(low, p + 2, digit - 48) == Some(digit - 48);
  }

  // ---------------------------------------------------------------------------
  // Exactly when the length depends on the head alone
  // ---------------------------------------------------------------------------

  predicate SameLength(p: Parsed, p': Parsed) {
    p.Parsed? && p'.Parsed? && p.len == p'.len
  }

  lemma {:induction false} NotFoundNowhere(mem: seq<Byte>, pat: seq<Byte>, i: nat)
    requires i <= |mem| && StrStr(mem, pat, i) == Overrun
    ensures forall j :: i <= j ==> !Occurs(mem, j, pat)
    decreases |mem| - i
  {
    if i < |mem| {
      NotFoundNowhere(mem, pat, i + 1);
    }
  }

  lemma {:induction false} NoZeroNotAbsent(mem: seq<Byte>, pat: seq<Byte>, i: nat)
    requires i <= |mem| && forall j :: i <= j < |mem| ==> mem[j] != 0
    ensures StrStr(mem, pat, i) != Absent
    decreases |mem| - i
  {
    if i < |mem| {
      NoZeroNotAbsent(mem, pat, i + 1);
    }
  }

  /** A head without the field: with zeros behind it there is no field. */
  lemma NoFieldInZeros(low: seq<Byte>, n: nat)
    requires low != [] && low[|low| - 1] == LF && forall j :: 0 <= j < |low| ==> low[j] != 0
    requires !StrStr(low, FIELD, 0).Found? && n >= 17
    ensures LengthField(low + Zeros(n)) == Some(-1)
  {
    forall j: nat | j <= |low|
      ensures !Occurs(low + Zeros(n), j, FIELD)
    {
      NoFieldAcross(low, Zeros(n), j);
    }
    assert (low + Zeros(n))[|low|] == 0;
    hide Occurs, Zeros;
    StrStrAbsent(low + Zeros(n), FIELD, 0, |low|);
  }

  /** A head without the field: a body that looks like the field is taken for it. */
  lemma FieldTakenFromBody(low: seq<Byte>, n: nat)
    requires low != [] && low[|low| - 1] == LF && forall j :: 0 <= j < |low| ==> low[j] != 0
    requires !StrStr(low, FIELD, 0).Found? && n >= 17
    ensures LengthField(low + (FIELD + [55] + Zeros(n - 16))) == Some(7)
  {
    var h, body := |low|, FIELD + [55] + Zeros(n - 16);
    var mem := low + body;
    forall j: nat | j < h
      ensures !Occurs(mem, j, FIELD)
    {
      NoFieldAcross(low, body, j);
    }
    assert mem[h..h + |FIELD|] == FIELD;
    assert mem[h + |FIELD|] == 55 && mem[h + |FIELD| + 1] == 0;
    SevenFollows(mem, h + |FIELD|);
    assert forall j :: 0 <= j < h ==> mem[j] == low[j];
    hide Zeros, Atoi;
    StrStrFindsFirst(mem, FIELD, 0, h);
  }

  lemma SevenFollows(mem: seq<Byte>, p: nat)
    requires p + 1 < |mem| && mem[p] == 55 && mem[p + 1] == 0
    ensures Atoi(mem, p) == Some(7)
  {
    assert AtoiDigits(mem, p + 1, 7) == Some(7);
  }

  lemma NoFieldAcross(low: seq<Byte>, rest: seq<Byte>, j: nat)
    requires low != [] && low[|low| - 1] == LF && forall i :: 0 <= i < |low| ==> low[i] != 0
    requires !StrStr(low, FIELD, 0).Found? && |rest| >= 17
    requires j < |low| || (j == |low| && rest[0] == 0)
    ensures !Occurs(low + rest, j, FIELD)
  {
    if j + |FIELD| <= |low| {
      NoZeroNotAbsent(low, FIELD, 0);
      NotFoundNowhere(low, FIELD, 0);
      hide StrStr;
      assert !Occurs(low, j, FIELD);
      OccursInPrefix(low, rest, j, FIELD);
      hide Occurs;
    } else {
      hide StrStr;
      Straddles(low, rest, j);
    }
  }

  /** No field name lies across the last byte of a head, nor over zeros. */
  lemma Straddles(low: seq<Byte>, rest: seq<Byte>, j: nat)
    requires low != [] && low[|low| - 1] == LF && |rest| >= 17
    requires j < |low| < j + |FIELD| || (j == |low| && rest[0] == 0)
    ensures !Occurs(low + rest, j, FIELD)
  {
    var z := if j < |low| then |low| - 1 else |low|;
    assert (low + rest)[z] == if j < |low| then LF else 0;
    assert forall i :: 0 <= i < |FIELD| ==> FIELD[i] != LF && FIELD[i] != 0;
    NotAcross(low + rest, j, FIELD, z);
  }

  /** A field without a value: the number is read from the body. */
  lemma ValueTakenFromBody(low: seq<Byte>, p: nat, n: nat)
    requires low != [] && low[|low| - 1] == LF && p <= |low| && n >= 17
    requires Atoi(low, p) == None
    ensures Atoi(low + Zeros(n), p) == Some(0)
    ensures Atoi(low + ([55] + Zeros(n - 1)), p) == Some(7)
  {
    AllBlank(low, p);
    var h := |low|;
    var zeros, body := low + Zeros(n), low + ([55] + Zeros(n - 1));
    assert zeros[h] == 0 && body[h] == 55 && body[h + 1] == 0;
    SkipBlanksStops(zeros, p, h);
    SkipBlanksStops(body, p, h);
    assert AtoiDigits(body, h + 1, 7) == Some(7);
  }

  lemma AllBlank(low: seq<Byte>, p: nat)
    requires low != [] && low[|low| - 1] == LF && p <= |low| && Atoi(low, p) == None
    ensures forall i :: p <= i < |low| ==> IsBlank(low[i])
  {
    match SkipBlanks(low, p)
    case Some(q) =>
      BlankPrefix(low, p);
      DigitsStop(low, q, 0);
      DigitsStop(low, q + 1, 0);
    case None => BlankPrefix(low, p);
  }

  lemma {:induction false} BlankPrefix(low: seq<Byte>, p: nat)
    ensures var q := SkipBlanks(low, p);
            && (q.Some? ==> p <= q.value && !IsBlank(low[q.value]))
            && forall i :: p <= i < (if q.Some? then q.value else |low|) ==> IsBlank(low[i])
    decreases |low| - p
  {
    if p < |low| {
      BlankPrefix(low, p + 1);
    }
  }

  lemma {:induction false} DigitsStop(low: seq<Byte>, p: nat, acc: int)
    requires low != [] && low[|low| - 1] == LF && p < |low|
    ensures AtoiDigits(low, p, acc).Some?
    decreases |low| - p
  {
    if IsDigit(low[p]) {
      DigitsStop(low, p + 1, 10 * acc + low[p] - 48);
    }
  }

  /** For a complete head of status 200 the content length is the same whatever part of the body
      has arrived with it if and only if the head has the field with a value. */
  lemma LengthIsFixedIffInHead(head: seq<Byte>)
    requires IsHead(head) && IsHttp(head) && Status(head) == Some(200) && |head| <= BUF_SIZE
    ensures HeadLength(head).Some? <==>
              forall rest, rest': seq<Byte> :: |rest| == |rest'| == BUF_SIZE - |head| ==>
                SameLength(ParseHead(head + rest), ParseHead(head + rest'))
  {
    if HeadLength(head).Some? {
      forall rest, rest': seq<Byte> | |rest| == |rest'| == BUF_SIZE - |head|
        ensures SameLength(ParseHead(head + rest), ParseHead(head + rest'))
      {
        ParseDependsOnHeadOnly(head, rest);
        ParseDependsOnHeadOnly(head, rest');
      }
    } else {
      var rest := Sevens(BUF_SIZE - |head|);
      SevensRunOff(head, BUF_SIZE - |head|);
      assert !SameLength(ParseHead(head + rest), ParseHead(head + rest));
    }
  }

  function Sevens(n: nat): (s: seq<Byte>)
    ensures |s| == n && forall i :: 0 <= i < n ==> s[i] == 55
  {
    seq(n, _ => 55)
  }

  /** Without a length in the head, a body of digits sends the scanner out of the buffer. */
  lemma SevensRunOff(head: seq<Byte>, n: nat)
    requires IsHead(head) && IsHttp(head) && Status(head) == Some(200) && HeadLength(head) == None
    ensures ParseHead(head + Sevens(n)) == Wild
  {
    HeadEndsInLineFeed(head);
    ParseReadsField(head, Sevens(n));
    hide ParseHead, IsHead, IsHttp, Status, LowerAll;
    if StrStr(LowerAll(head), FIELD, 0).Found? {
      ValueRunsOff(LowerAll(head), Sevens(n), StrStr(LowerAll(head), FIELD, 0).at);
    } else {
      FieldRunsOff(LowerAll(head), Sevens(n));
    }
  }

  lemma ValueRunsOff(low: seq<Byte>, sevens: seq<Byte>, k: nat)
    requires low != [] && low[|low| - 1] == LF && forall i :: 0 <= i < |sevens| ==> sevens[i] == 55
    requires StrStr(low, FIELD, 0) == Found(k) && Atoi(low, k + |FIELD|) == None
    ensures LengthField(low + sevens) == None
  {
    hide StrStr, Atoi, Occurs;
    FoundInPrefix(low, FIELD, sevens);
    AllBlank(low, k + |FIELD|);
    DigitsRunOff(low + sevens, k + |FIELD|, |low|);
  }

  lemma FieldRunsOff(low: seq<Byte>, sevens: seq<Byte>)
    requires low != [] && low[|low| - 1] == LF && forall i :: 0 <= i < |low| ==> low[i] != 0
    requires !StrStr(low, FIELD, 0).Found? && forall i :: 0 <= i < |sevens| ==> sevens[i] == 55
    ensures LengthField(low + sevens) == None
  {
    hide StrStr, Atoi, Occurs;
    forall j: nat
      ensures !Occurs(low + sevens, j, FIELD)
    {
      NoFieldInSevens(low, sevens, j);
    }
    OccursNowhere(low + sevens, FIELD, 0);
  }

  lemma NoFieldInSevens(low: seq<Byte>, sevens: seq<Byte>, j: nat)
    requires low != [] && low[|low| - 1] == LF && forall i :: 0 <= i < |low| ==> low[i] != 0
    requires !StrStr(low, FIELD, 0).Found? && forall i :: 0 <= i < |sevens| ==> sevens[i] == 55
    ensures !Occurs(low + sevens, j, FIELD)
  {
    if j + |FIELD| <= |low| {
      NoZeroNotAbsent(low, FIELD, 0);
      NotFoundNowhere(low, FIELD, 0);
      OccursInPrefix(low, sevens, j, FIELD);
    } else if j + |FIELD| <= |low + sevens| {
      var z := if j < |low| then |low| - 1 else j;
      assert (low + sevens)[z] == if j < |low| then LF else 55;
      assert forall i :: 0 <= i < |FIELD| ==> FIELD[i] != LF && FIELD[i] != 55;
      NotAcross(low + sevens, j, FIELD, z);
    }
  }

  lemma {:induction false} OccursNowhere(mem: seq<Byte>, pat: seq<Byte>, i: nat)
    requires i <= |mem| && (forall j: nat :: !Occurs(mem, j, pat)) && forall j :: i <= j < |mem| ==> mem[j] != 0
    ensures StrStr(mem, pat, i) == Overrun
    decreases |mem| - i
  {
    if i < |mem| {
      OccursNowhere(mem, pat, i + 1);
    }
  }

  /** Blanks, then digits, up to the end of the buffer. */
  lemma {:induction false} DigitsRunOff(mem: seq<Byte>, p: nat, h: nat)
    requires p <= h <= |mem| && forall i :: p <= i < h ==> IsBlank(mem[i])
    requires forall i :: h <= i < |mem| ==> mem[i] == 55
    ensures Atoi(mem, p) == None
    decreases h - p
  {
    if p < h {
      DigitsRunOff(mem, p + 1, h);
    } else {
      AllDigitsRunOff(mem, h, 0);
    }
  }

  lemma {:induction false} AllDigitsRunOff(mem: seq<Byte>, p: nat, acc: int)
    requires forall i :: p <= i < |mem| ==> IsDigit(mem[i])
    ensures AtoiDigits(mem, p, acc) == None
    decreases |mem| - p
  {
    if p < |mem| {
      AllDigitsRunOff(mem, p + 1, 10 * acc + mem[p] - 48);
    }
  }

  /** With room for a field behind the head, two bodies make the scanner report two different
      lengths: without the field -1 and 7, without a value 0 and 7. */
  lemma Disagreement(head: seq<Byte>) returns (rest: seq<Byte>, rest': seq<Byte>)
    requires IsHead(head) && IsHttp(head) && Status(head) == Some(200) && |head| + 17 <= BUF_SIZE
    requires HeadLength(head) == None
    ensures |rest| == |rest'| == BUF_SIZE - |head|
    ensures var p, p' := ParseHead(head + rest), ParseHead(head + rest');
            p.Parsed? && p'.Parsed? && p.len <= 0 && p'.len == 7
  {
    var n, low := BUF_SIZE - |head|, LowerAll(head);
    HeadEndsInLineFeed(head);
    rest := Zeros(n);
    match StrStr(low, FIELD, 0)
    case Found(k) =>
      rest' := [55] + Zeros(n - 1);
      FoundInPrefix(low, FIELD, rest);
      FoundInPrefix(low, FIELD, rest');
      ValueTakenFromBody(low, k + |FIELD|, n);
      ParseReadsField(head, rest);
      ParseReadsField(head, rest');
    case _ =>
      rest' := FIELD + [55] + Zeros(n - 16);
      FieldTakenFromBody(low, n);
      NoFieldInZeros(low, n);
      ParseReadsField(head, rest);
      ParseReadsField(head, rest');
  }
}
