/** Decimal numerals, the 16-bit conversion of ports, and searches in URL text. */
module Decimals {
  import opened Bytes
  import opened CString

  const SLASH: Byte := 47
  const COLON: Byte := 58
  const AT: Byte := 64

  predicate AllDigits(s: seq<Byte>) {
    forall i :: 0 <= i < |s| ==> IsDigit(s[i])
  }

  /** The numeral that `%d` prints for a natural number. */
  function Numeral(n: nat): (s: seq<Byte>)
    ensures s != [] && AllDigits(s)
    decreases n
  {
    var last: Byte := 48 + n % 10;
    if n < 10 then [last] else Numeral(n / 10) + [last]
  }

  lemma {:induction false} DecimalOfAppend(s: seq<Byte>, last: Byte, acc: int)
    requires AllDigits(s) && IsDigit(last)
    ensures Decimal(s + [last], acc) == 10 * Decimal(s, acc) + last - 48
    decreases |s|
  {
    if s == [] {
      assert [last][1..] == [];
    } else {
      assert (s + [last])[1..] == s[1..] + [last];
      DecimalOfAppend(s[1..], last, 10 * acc + s[0] - 48);
    }
  }

  /** Reading a printed number gives the number back. */
  lemma {:induction false} DecimalOfNumeral(n: nat)
    ensures Decimal(Numeral(n), 0) == n
    decreases n
  {
    var last: Byte := 48 + n % 10;
    if n < 10 {
      assert [last][1..] == [];
    } else {
      DecimalOfNumeral(n / 10);
      DecimalOfAppend(Numeral(n / 10), last, 0);
    }
  }

  /** Conversion of an `int` to the 16-bit `short`. */
  function ToShort(n: int): (s: int)
    ensures -0x8000 <= s < 0x8000
  {
    (n + 0x8000) % 0x1_0000 - 0x8000
  }

  /** The conversion keeps the low 16 bits, and only one `short` has them. */
  lemma ShortIsCongruent(n: int, s: int)
    requires -0x8000 <= s < 0x8000
    ensures ToShort(n) == s <==> (n - s) % 0x1_0000 == 0
  {
  }

  /** A natural number survives the conversion exactly up to 32767. */
  lemma ShortIsExactIff(n: nat)
    ensures ToShort(n) == n <==> n <= 32767
  {
  }

  predicate StartsWith(s: seq<Byte>, prefix: seq<Byte>) {
    |prefix| <= |s| && s[..|prefix|] == prefix
  }

  /** First index of `b` at or after `i`, the length when there is none (`strchr`). */
  function Find(s: seq<Byte>, b: Byte, i: nat): (r: nat)
    requires i <= |s|
    ensures i <= r <= |s| && (r < |s| ==> s[r] == b)
    ensures forall j :: i <= j < r ==> s[j] != b
    decreases |s| - i
  {
    if i == |s| || s[i] == b then i else Find(s, b, i + 1)
  }

  /** Last index of `b` before `i`, -1 when there is none (`strrchr`). */
  function FindLast(s: seq<Byte>, b: Byte, i: nat): (r: int)
    requires i <= |s|
    ensures -1 <= r < i && (r >= 0 ==> s[r] == b)
    ensures forall j :: r < j < i ==> s[j] != b
  {
    if i == 0 then -1 else if s[i - 1] == b then i - 1 else FindLast(s, b, i - 1)
  }
}
