/** Bytes and the small vocabulary shared by the models. */
module Bytes {
  type Byte = b: int | 0 <= b < 256

  datatype Option<+T> = None | Some(value: T)

  function Pow2(n: nat): (p: nat)
    ensures p > 0
  {
    if n == 0 then 1 else 2 * Pow2(n - 1)
  }

  /** A buffer of `n` zero bytes, what `memset(p, 0, n)` leaves behind. */
  function Zeros(n: nat): (s: seq<Byte>)
    ensures |s| == n
  {
    seq(n, _ => 0)
  }

  /** `memcpy(buf + at, data, |data|)` on a buffer that has room for it. */
  function Splice(buf: seq<Byte>, at: nat, data: seq<Byte>): (s: seq<Byte>)
    requires at + |data| <= |buf|
    ensures |s| == |buf|
  {
    buf[..at] + data + buf[at + |data|..]
  }

  /** Two adjacent copies are one copy of the joined bytes. */
  lemma SpliceTwice(buf: seq<Byte>, at: nat, x: seq<Byte>, y: seq<Byte>)
    requires at + |x| + |y| <= |buf|
    ensures Splice(Splice(buf, at, x), at + |x|, y) == Splice(buf, at, x + y)
  {
    var b := Splice(buf, at, x);
    assert b[..at + |x|] == buf[..at] + x;
    assert b[at + |x| + |y|..] == buf[at + |x| + |y|..];
  }

  lemma SpliceNothing(buf: seq<Byte>, at: nat)
    requires at <= |buf|
    ensures Splice(buf, at, []) == buf
  {
  }
}
