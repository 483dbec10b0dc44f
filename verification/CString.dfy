/** The C library functions the download code applies to its receive buffer.

    A buffer is a byte sequence of fixed length; a C string in it ends at the first zero byte.
    A scan that reaches the end of the buffer without having stopped has no defined result in
    C: it is `Overrun` here. */
module CString {
  import opened Bytes

  const SPACE: Byte := 32
  const CR: Byte := 13
  const LF: Byte := 10

  predicate IsDigit(b: Byte) {
    48 <= b <= 57
  }

  /** `isspace` in the C locale. */
  predicate IsBlank(b: Byte) {
    b == SPACE || 9 <= b <= 13
  }

  /** `tolower` in the C locale. */
  function Lower(b: Byte): Byte {
    if 65 <= b <= 90 then b + 32 else b
  }

  function LowerAll(s: seq<Byte>): (t: seq<Byte>)
    ensures |t| == |s|
  {
    seq(|s|, i requires 0 <= i < |s| => Lower(s[i]))
  }

  predicate Occurs(mem: seq<Byte>, i: nat, pat: seq<Byte>) {
    i + |pat| <= |mem| && mem[i..i + |pat|] == pat
  }

  lemma OccursInPrefix(mem: seq<Byte>, rest: seq<Byte>, j: nat, pat: seq<Byte>)
    requires j + |pat| <= |mem|
    ensures Occurs(mem + rest, j, pat) == Occurs(mem, j, pat)
  {
    assert (mem + rest)[j..j + |pat|] == mem[j..j + |pat|];
  }

  /** A pattern does not lie across a byte that it does not contain. */
  lemma NotAcross(mem: seq<Byte>, j: nat, pat: seq<Byte>, z: nat)
    requires j <= z < j + |pat| && z < |mem| && forall i :: 0 <= i < |pat| ==> pat[i] != mem[z]
    ensures !Occurs(mem, j, pat)
  {
    if j + |pat| <= |mem| {
      assert mem[j..j + |pat|][z - j] == mem[z];
    }
  }

  datatype Search = Found(at: nat) | Absent | Overrun

  /** `strstr(mem + i, pat)`, as an offset into `mem`. */
  function StrStr(mem: seq<Byte>, pat: seq<Byte>, i: nat): (s: Search)
    requires i <= |mem|
    ensures s.Found? ==> s.at + |pat| <= |mem|
    decreases |mem| - i
  {
    if Occurs(mem, i, pat) then Found(i)
    else if i == |mem| then Overrun
    else if mem[i] == 0 then Absent
    else StrStr(mem, pat, i + 1)
  }

  /** First occurrence of `pat` at or after `i`, with no string end before it. */
  ghost predicate FirstAt(mem: seq<Byte>, pat: seq<Byte>, i: nat, k: nat) {
    && i <= k
    && Occurs(mem, k, pat)
    && (forall j :: i <= j < k ==> mem[j] != 0)
    && (forall j :: i <= j < k ==> !Occurs(mem, j, pat))
  }

  lemma {:induction false} StrStrFindsFirst(mem: seq<Byte>, pat: seq<Byte>, i: nat, k: nat)
    requires i <= |mem|
    ensures StrStr(mem, pat, i) == Found(k) <==> FirstAt(mem, pat, i, k)
    decreases |mem| - i
  {
    if !Occurs(mem, i, pat) && i < |mem| && mem[i] != 0 {
      StrStrFindsFirst(mem, pat, i + 1, k);
    }
  }

  /** A search that meets a zero byte before any occurrence reports absence. */
  lemma {:induction false} StrStrAbsent(mem: seq<Byte>, pat: seq<Byte>, i: nat, z: nat)
    requires i <= z < |mem| && mem[z] == 0
    requires forall j :: i <= j <= z ==> !Occurs(mem, j, pat)
    ensures StrStr(mem, pat, i) == Absent
    decreases z - i
  {
    if i < z && mem[i] != 0 {
      StrStrAbsent(mem, pat, i + 1, z);
    }
  }

  /** `while (isspace(*p)) p++`; None when it runs off the buffer. */
  function SkipBlanks(mem: seq<Byte>, p: nat): (q: Option<nat>)
    ensures q.Some? ==> q.value < |mem|
    decreases |mem| - p
  {
    if p >= |mem| then None
    else if IsBlank(mem[p]) then SkipBlanks(mem, p + 1)
    else Some(p)
  }

  /** The digit loop of `atoi`. */
  function AtoiDigits(mem: seq<Byte>, p: nat, acc: int): Option<int>
    decreases |mem| - p
  {
    if p >= |mem| then None
    else if IsDigit(mem[p]) then AtoiDigits(mem, p + 1, 10 * acc + mem[p] - 48)
    else Some(acc)
  }

  /** `atoi(mem + p)`: blanks, an optional sign, digits. */
  function Atoi(mem: seq<Byte>, p: nat): Option<int> {
    match SkipBlanks(mem, p)
    case None => None
    case Some(q) =>
      if mem[q] == 45 then
        match AtoiDigits(mem, q + 1, 0) case None => None case Some(v) => Some(-v)
      else AtoiDigits(mem, if mem[q] == 43 then q + 1 else q, 0)
  }

  /** The number that a digit string denotes, read left to right from `acc`. */
  function Decimal(digits: seq<Byte>, acc: int): int
    requires forall i :: 0 <= i < |digits| ==> IsDigit(digits[i])
    decreases |digits|
  {
    if digits == [] then acc else Decimal(digits[1..], 10 * acc + digits[0] - 48)
  }

  /** `atoi` reads exactly the digits that stand at `p`, up to the first non-digit. */
  lemma {:induction false} AtoiDigitsIsDecimal(mem: seq<Byte>, p: nat, digits: seq<Byte>, acc: int)
    requires p + |digits| < |mem| && mem[p..p + |digits|] == digits && !IsDigit(mem[p + |digits|])
    requires forall i :: 0 <= i < |digits| ==> IsDigit(digits[i])
    ensures AtoiDigits(mem, p, acc) == Some(Decimal(digits, acc))
    decreases |digits|
  {
    if digits != [] {
      assert mem[p] == digits[0];
      assert mem[p + 1..p + 1 + |digits[1..]|] == digits[1..];
      AtoiDigitsIsDecimal(mem, p + 1, digits[1..], 10 * acc + digits[0] - 48);
    }
  }

  lemma {:induction false} SkipBlanksStops(mem: seq<Byte>, p: nat, q: nat)
    requires p <= q < |mem| && !IsBlank(mem[q]) && forall i :: p <= i < q ==> IsBlank(mem[i])
    ensures SkipBlanks(mem, p) == Some(q)
    decreases q - p
  {
    if p < q {
      SkipBlanksStops(mem, p + 1, q);
    }
  }

  /** The signs that `atoi` accepts. */
  predicate IsSign(sign: seq<Byte>) {
    sign == [] || sign == [43] || sign == [45]
  }

  predicate AreDigits(digits: seq<Byte>) {
    forall i :: 0 <= i < |digits| ==> IsDigit(digits[i])
  }

  /** The number that a sign and digits denote; no digits are zero. */
  function Number(sign: seq<Byte>, digits: seq<Byte>): int
    requires AreDigits(digits)
  {
    if sign == [45] then -Decimal(digits, 0) else Decimal(digits, 0)
  }

  /** At `q` stand a sign and digits, and then something else. */
  ghost predicate NumberAt(mem: seq<Byte>, q: nat, sign: seq<Byte>, digits: seq<Byte>) {
    var d := q + |sign|;
    && IsSign(sign) && AreDigits(digits) && d + |digits| < |mem|
    && mem[q..d] == sign && mem[d..d + |digits|] == digits && !IsDigit(mem[d + |digits|])
    && (sign == [] && digits == [] ==> mem[q] != 32 && !(9 <= mem[q] <= 13) && mem[q] != 43 && mem[q] != 45)
  }

  /** `atoi` skips blanks and reads the number behind them. */
  lemma AtoiIsNumber(mem: seq<Byte>, p: nat, q: nat, sign: seq<Byte>, digits: seq<Byte>)
    requires p <= q && NumberAt(mem, q, sign, digits)
    requires forall i :: p <= i < q ==> IsBlank(mem[i])
    ensures Atoi(mem, p) == Some(Number(sign, digits))
  {
    var d := q + |sign|;
    if sign != [] {
      assert mem[q] == mem[q..d][0];
    } else if digits != [] {
      assert mem[q] == mem[d..d + |digits|][0];
    }
    SkipBlanksStops(mem, p, q);
    AtoiDigitsIsDecimal(mem, d, digits, 0);
    hide Decimal, AtoiDigits, SkipBlanks;
  }

  lemma {:induction false} BlanksBehind(front: seq<Byte>, mem: seq<Byte>, p: nat)
    ensures SkipBlanks(front + mem, |front| + p) ==
            match SkipBlanks(mem, p) case None => None case Some(q) => Some(|front| + q)
    decreases |mem| - p
  {
    if p < |mem| {
      assert (front + mem)[|front| + p] == mem[p];
      BlanksBehind(front, mem, p + 1);
    }
  }

  lemma {:induction false} DigitsBehind(front: seq<Byte>, mem: seq<Byte>, p: nat, acc: int)
    ensures AtoiDigits(front + mem, |front| + p, acc) == AtoiDigits(mem, p, acc)
    decreases |mem| - p
  {
    if p < |mem| && IsDigit(mem[p]) {
      assert (front + mem)[|front| + p] == mem[p];
      DigitsBehind(front, mem, p + 1, 10 * acc + mem[p] - 48);
    }
  }

  /** `atoi` does not look at what stands before its argument. */
  lemma AtoiBehind(front: seq<Byte>, mem: seq<Byte>, p: nat)
    ensures Atoi(front + mem, |front| + p) == Atoi(mem, p)
  {
    BlanksBehind(front, mem, p);
    match SkipBlanks(mem, p)
    case None =>
    case Some(q) =>
      DigitsBehind(front, mem, q, 0);
      DigitsBehind(front, mem, q + 1, 0);
      hide SkipBlanks, AtoiDigits;
      assert (front + mem)[|front| + q] == mem[q];
  }
}
