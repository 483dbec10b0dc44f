/** The traditional ZIP stream cipher of `crypt.h` (section 6.1 of PKWARE APPNOTE.TXT): three
    32-bit keys that every plain byte updates, and one key byte drawn from them per byte. */
module ZipCrypto {
  import opened Words

  const TABLE_SIZE := 256
  const RAND_HEAD_LEN := 12

  /** `pcrc_32_tab`: any table of 256 words. */
  type CrcTable = t: seq<bv32> | |t| == TABLE_SIZE witness seq(TABLE_SIZE, _ => 0)

  datatype Keys = Keys(k0: bv32, k1: bv32, k2: bv32)

  /** The macro CRC32(c, b). */
  function Crc32(tab: CrcTable, c: bv32, b: bv8): bv32 {
    Xor32(tab[Index(c, b) as int], High(c))
  }

  function DecryptByte(k: Keys): bv8 {
    var temp := Temp(k.k2);
    Middle(Product(temp, Xor32(temp, 1)))
  }

  /** The two updates of the second key. */
  function AddLowByte(k1: bv32, k0: bv32): bv32 {
    k1 + (k0 & 0xff)
  }

  function Scramble(k1: bv32): bv32 {
    k1 * 134775813 + 1
  }

  function HighByte(k1: bv32): bv8 {
    LowByte(k1 >> 24)
  }

  function UpdateKeys(k: Keys, tab: CrcTable, c: bv8): Keys {
    var k0 := Crc32(tab, k.k0, c);
    var k1 := Scramble(AddLowByte(k.k1, k0));
    Keys(k0, k1, Crc32(tab, k.k2, HighByte(k1)))
  }

  function Xor(a: bv8, b: bv8): bv8 {
    a ^ b
  }

  const START := Keys(305419896, 591751049, 878082192)

  /** The keys after a run of plain bytes. */
  function Absorb(k: Keys, tab: CrcTable, plain: seq<bv8>): Keys
    decreases |plain|
  {
    if plain == [] then k else Absorb(UpdateKeys(k, tab, plain[0]), tab, plain[1..])
  }

  /** `init_keys` on a password. */
  function InitKeys(passwd: seq<bv8>, tab: CrcTable): Keys {
    Absorb(START, tab, passwd)
  }

  /** `zencode` over a byte string. */
  function Encode(k: Keys, tab: CrcTable, plain: seq<bv8>): (cipher: seq<bv8>)
    ensures |cipher| == |plain|
    decreases |plain|
  {
    if plain == [] then []
    else [Xor(DecryptByte(k), plain[0])] + Encode(UpdateKeys(k, tab, plain[0]), tab, plain[1..])
  }

  /** `zdecode` over a byte string. */
  function Decode(k: Keys, tab: CrcTable, cipher: seq<bv8>): (plain: seq<bv8>)
    ensures |plain| == |cipher|
    decreases |cipher|
  {
    if cipher == [] then []
    else
      var c := Xor(cipher[0], DecryptByte(k));
      [c] + Decode(UpdateKeys(k, tab, c), tab, cipher[1..])
  }

  /** The keys of the decoding side after some cipher bytes. */
  function DecodeKeys(k: Keys, tab: CrcTable, cipher: seq<bv8>): Keys
    decreases |cipher|
  {
    if cipher == [] then k
    else DecodeKeys(UpdateKeys(k, tab, Xor(cipher[0], DecryptByte(k))), tab, cipher[1..])
  }

  // ---------------------------------------------------------------------------
  // The cipher on the key array
  // ---------------------------------------------------------------------------

  ghost function View(pkeys: array<bv32>): Keys
    requires pkeys.Length == 3
    reads pkeys
  {
    Keys(pkeys[0], pkeys[1], pkeys[2])
  }

  method UpdateKeysInPlace(pkeys: array<bv32>, tab: CrcTable, c: bv8)
    requires pkeys.Length == 3
    modifies pkeys
    ensures View(pkeys) == UpdateKeys(old(View(pkeys)), tab, c)
  {
    hide Crc32, AddLowByte, Scramble, HighByte;
    pkeys[0] := Crc32(tab, pkeys[0], c);
    pkeys[1] := AddLowByte(pkeys[1], pkeys[0]);
    pkeys[1] := Scramble(pkeys[1]);
    pkeys[2] := Crc32(tab, pkeys[2], HighByte(pkeys[1]));
  }

  method InitKeysInPlace(passwd: seq<bv8>, pkeys: array<bv32>, tab: CrcTable)
    requires pkeys.Length == 3
    modifies pkeys
    ensures View(pkeys) == InitKeys(passwd, tab)
  {
    hide UpdateKeys;
    pkeys[0], pkeys[1], pkeys[2] := 305419896, 591751049, 878082192;
    for i := 0 to |passwd|
      invariant Absorb(View(pkeys), tab, passwd[i..]) == InitKeys(passwd, tab)
    {
      assert passwd[i..][0] == passwd[i] && passwd[i..][1..] == passwd[i + 1..];
      UpdateKeysInPlace(pkeys, tab, passwd[i]);
    }
  }

  method ZEncode(pkeys: array<bv32>, tab: CrcTable, c: bv8) returns (e: bv8)
    requires pkeys.Length == 3
    modifies pkeys
    ensures e == Xor(DecryptByte(old(View(pkeys))), c)
    ensures View(pkeys) == UpdateKeys(old(View(pkeys)), tab, c)
  {
    hide UpdateKeys, DecryptByte, Xor;
    var t := DecryptByte(Keys(pkeys[0], pkeys[1], pkeys[2]));
    UpdateKeysInPlace(pkeys, tab, c);
    e := Xor(t, c);
  }

  method ZDecode(pkeys: array<bv32>, tab: CrcTable, c: bv8) returns (d: bv8)
    requires pkeys.Length == 3
    modifies pkeys
    ensures d == Xor(c, DecryptByte(old(View(pkeys))))
    ensures View(pkeys) == UpdateKeys(old(View(pkeys)), tab, d)
  {
    hide UpdateKeys, DecryptByte, Xor;
    d := Xor(c, DecryptByte(Keys(pkeys[0], pkeys[1], pkeys[2])));
    UpdateKeysInPlace(pkeys, tab, d);
  }

  /** The loops that run `zencode` over a buffer. */
  method EncodeInto(pkeys: array<bv32>, tab: CrcTable, plain: seq<bv8>, buf: array<bv8>, at: nat)
    requires pkeys.Length == 3 && at + |plain| <= buf.Length
    modifies pkeys, buf
    ensures View(pkeys) == Absorb(old(View(pkeys)), tab, plain)
    ensures buf[..] == old(buf[..at]) + Encode(old(View(pkeys)), tab, plain) + old(buf[at + |plain|..])
  {
    hide UpdateKeys, DecryptByte, Xor;
    ghost var k := View(pkeys);
    for i := 0 to |plain|
      invariant Absorb(View(pkeys), tab, plain[i..]) == Absorb(k, tab, plain)
      invariant Encode(k, tab, plain)[i..] == Encode(View(pkeys), tab, plain[i..])
      invariant buf[at..at + i] == Encode(k, tab, plain)[..i]
      invariant buf[..at] == old(buf[..at]) && buf[at + |plain|..] == old(buf[at + |plain|..])
    {
      assert plain[i..][0] == plain[i] && plain[i..][1..] == plain[i + 1..];
      var e := ZEncode(pkeys, tab, plain[i]);
      assert e == Encode(k, tab, plain)[i..][0];
      assert Encode(k, tab, plain)[i + 1..] == Encode(k, tab, plain)[i..][1..];
      buf[at + i] := e;
      assert buf[at..at + i + 1] == buf[at..at + i] + [e];
    }
    assert buf[..] == buf[..at] + buf[at..at + |plain|] + buf[at + |plain|..];
  }

  /** The loop that runs `zdecode` over a buffer, in place. */
  method DecodeInPlace(pkeys: array<bv32>, tab: CrcTable, buf: array<bv8>)
    requires pkeys.Length == 3
    modifies pkeys, buf
    ensures View(pkeys) == DecodeKeys(old(View(pkeys)), tab, old(buf[..]))
    ensures buf[..] == Decode(old(View(pkeys)), tab, old(buf[..]))
  {
    hide UpdateKeys, DecryptByte, Xor;
    ghost var k, cipher := View(pkeys), buf[..];
    for i := 0 to buf.Length
      invariant DecodeKeys(View(pkeys), tab, cipher[i..]) == DecodeKeys(k, tab, cipher)
      invariant Decode(k, tab, cipher)[i..] == Decode(View(pkeys), tab, cipher[i..])
      invariant buf[..i] == Decode(k, tab, cipher)[..i] && buf[i..] == cipher[i..]
    {
      assert cipher[i..][0] == buf[i] && cipher[i..][1..] == cipher[i + 1..];
      var d := ZDecode(pkeys, tab, buf[i]);
      assert d == Decode(k, tab, cipher)[i..][0];
      assert Decode(k, tab, cipher)[i + 1..] == Decode(k, tab, cipher)[i..][1..];
      buf[i] := d;
      assert buf[..i + 1] == buf[..i] + [d];
    }
    assert buf[..] == buf[..buf.Length];
  }

  /** The random byte taken from a value of `rand()`. */
  function RandomByte(r: bv32): bv8 {
    LowByte(r >> 7)
  }

  function RandomBytes(rands: seq<bv32>): (s: seq<bv8>)
    ensures |s| == |rands|
  {
    seq(|rands|, i requires 0 <= i < |rands| => RandomByte(rands[i]))
  }

  function HighCrcBytes(crc: bv32): seq<bv8> {
    [LowByte(crc >> 16), LowByte(crc >> 24)]
  }

  /** The plain header: ten bytes that are themselves cipher output, then the CRC bytes. */
  function PlainHeader(passwd: seq<bv8>, tab: CrcTable, rands: seq<bv32>, crc: bv32): seq<bv8> {
    Encode(InitKeys(passwd, tab), tab, RandomBytes(rands)) + HighCrcBytes(crc)
  }

  /** `crypthead`; `rands` are the values that `rand()` returns. */
  method CryptHead(passwd: seq<bv8>, buf: array<bv8>, bufSize: int, pkeys: array<bv32>, tab: CrcTable,
                   crc: bv32, rands: seq<bv32>)
    returns (n: int)
    requires pkeys.Length == 3 && |rands| == RAND_HEAD_LEN - 2 && bufSize <= buf.Length
    modifies buf, pkeys
    ensures bufSize < RAND_HEAD_LEN ==> n == 0 && unchanged(buf) && unchanged(pkeys)
    ensures bufSize >= RAND_HEAD_LEN ==>
              var plain := PlainHeader(passwd, tab, rands, crc);
              && n == |plain| == RAND_HEAD_LEN
              && buf[..] == Encode(InitKeys(passwd, tab), tab, plain) + old(buf[RAND_HEAD_LEN..])
              && View(pkeys) == Absorb(InitKeys(passwd, tab), tab, plain)
  {
    if bufSize < RAND_HEAD_LEN {
      return 0;
    }
    hide UpdateKeys, DecryptByte, Xor, Crc32;
    ghost var rest := buf[RAND_HEAD_LEN..];
    var header := new bv8[RAND_HEAD_LEN - 2];
    InitKeysInPlace(passwd, pkeys, tab);
    EncodeInto(pkeys, tab, RandomBytes(rands), header, 0);
    ghost var k := InitKeys(passwd, tab);
    assert header[..] == Encode(k, tab, RandomBytes(rands));
    InitKeysInPlace(passwd, pkeys, tab);
    var plain := header[..] + HighCrcBytes(crc);
    EncodeInto(pkeys, tab, plain, buf, 0);
    n := RAND_HEAD_LEN;
  }

  // ---------------------------------------------------------------------------
  // Round trips
  // ---------------------------------------------------------------------------

  lemma XorCancels(a: bv8, b: bv8)
    ensures Xor(Xor(a, b), a) == b && Xor(a, Xor(b, a)) == b
  {
  }

  /** Decoding what was encoded with the same keys gives the plain bytes back. */
  lemma {:induction false} DecodeUndoesEncode(k: Keys, tab: CrcTable, plain: seq<bv8>)
    ensures Decode(k, tab, Encode(k, tab, plain)) == plain
    decreases |plain|
  {
    hide UpdateKeys, DecryptByte, Xor;
    if plain != [] {
      XorCancels(DecryptByte(k), plain[0]);
      DecodeUndoesEncode(UpdateKeys(k, tab, plain[0]), tab, plain[1..]);
      assert Encode(k, tab, plain)[1..] == Encode(UpdateKeys(k, tab, plain[0]), tab, plain[1..]);
    }
  }

  /** Encoding is onto as well: every byte string is the cipher text of its decoding. */
  lemma {:induction false} EncodeUndoesDecode(k: Keys, tab: CrcTable, cipher: seq<bv8>)
    ensures Encode(k, tab, Decode(k, tab, cipher)) == cipher
    decreases |cipher|
  {
    hide UpdateKeys, DecryptByte, Xor;
    if cipher != [] {
      var c := Xor(cipher[0], DecryptByte(k));
      XorCancels(DecryptByte(k), cipher[0]);
      EncodeUndoesDecode(UpdateKeys(k, tab, c), tab, cipher[1..]);
      assert Decode(k, tab, cipher)[1..] == Decode(UpdateKeys(k, tab, c), tab, cipher[1..]);
    }
  }

  /** The cipher of a concatenation: the second part is encoded with the keys that the first
      part leaves. */
  lemma {:induction false} EncodeConcat(k: Keys, tab: CrcTable, x: seq<bv8>, y: seq<bv8>)
    ensures Encode(k, tab, x + y) == Encode(k, tab, x) + Encode(Absorb(k, tab, x), tab, y)
    decreases |x|
  {
    hide UpdateKeys, DecryptByte, Xor;
    if x == [] {
      assert x + y == y;
    } else {
      assert (x + y)[1..] == x[1..] + y;
      EncodeConcat(UpdateKeys(k, tab, x[0]), tab, x[1..], y);
    }
  }

  /** Both sides hold the same keys after every byte. */
  lemma {:induction false} KeysAgree(k: Keys, tab: CrcTable, plain: seq<bv8>, i: nat)
    requires i <= |plain|
    ensures DecodeKeys(k, tab, Encode(k, tab, plain)[..i]) == Absorb(k, tab, plain[..i])
    decreases |plain|
  {
    hide UpdateKeys, DecryptByte, Xor;
    if i > 0 {
      var cipher := Encode(k, tab, plain);
      XorCancels(DecryptByte(k), plain[0]);
      assert cipher[..i][1..] == Encode(UpdateKeys(k, tab, plain[0]), tab, plain[1..])[..i - 1];
      assert plain[..i][1..] == plain[1..][..i - 1];
      KeysAgree(UpdateKeys(k, tab, plain[0]), tab, plain[1..], i - 1);
    }
  }

  /** Main result: for every password, table, random source, CRC and body, decoding the file
      (header as `CryptHead` writes it, then the body encoded with the keys it leaves) from the
      password gives ten bytes, the two CRC bytes and the body; the ten bytes decode once more,
      from the password, to the random bytes. */
  lemma EncryptedEntryDecodes(passwd: seq<bv8>, tab: CrcTable, rands: seq<bv32>, crc: bv32, body: seq<bv8>)
    requires |rands| == RAND_HEAD_LEN - 2
    ensures var k, plain := InitKeys(passwd, tab), PlainHeader(passwd, tab, rands, crc);
            var header := Encode(k, tab, plain);
            var text := Decode(k, tab, header + Encode(Absorb(k, tab, plain), tab, body));
            && DecodeKeys(k, tab, header) == Absorb(k, tab, plain)
            && |text| == RAND_HEAD_LEN + |body|
            && text[10] == LowByte(crc >> 16) && text[11] == LowByte(crc >> 24)
            && Decode(k, tab, text[..10]) == RandomBytes(rands)
            && text[RAND_HEAD_LEN..] == body
  {
    hide UpdateKeys, DecryptByte, Xor, Absorb, InitKeys;
    var k, plain := InitKeys(passwd, tab), PlainHeader(passwd, tab, rands, crc);
    var header := Encode(k, tab, plain);
    EncodeConcat(k, tab, plain, body);
    DecodeUndoesEncode(k, tab, plain + body);
    KeysAgree(k, tab, plain, |plain|);
    DecodeUndoesEncode(k, tab, RandomBytes(rands));
    assert plain[..10] == Encode(k, tab, RandomBytes(rands));
    assert (plain + body)[..10] == plain[..10];
    assert header[..|plain|] == header && plain[..|plain|] == plain;
  }

  // ---------------------------------------------------------------------------
  // What the key stream is
  // ---------------------------------------------------------------------------

  /** The key byte without masks and shifts: with `a` the bits 2 to 15 of the third key, the
      second lowest byte of (4a + 2)(4a + 3), a product that does not overflow. */
  lemma KeyByte(k: Keys)
    ensures Lower(k.k2) < Upper(k.k2) < 0x1_0000
    ensures Widened(DecryptByte(k)) == SecondByte(Product(Lower(k.k2), Upper(k.k2)))
  {
    KeyByteIs(k.k2);
    hide Widened, SecondByte, Product, Lower, Upper, Temp, Xor32, Middle;
  }

  /** The other operations without masks and shifts; the addition is modulo 2 to the power 32,
      as the words are. */
  lemma AddLowByteIs(k0: bv32, k1: bv32)
    ensures AddLowByte(k1, k0) == k1 + k0 % 256
  {
  }

  lemma HighByteIs(k1: bv32)
    ensures Widened(HighByte(k1)) == k1 / 0x100_0000
  {
  }

  lemma RandomByteIs(r: bv32)
    ensures Widened(RandomByte(r)) == r / 128 % 256
  {
  }

  lemma CrcBytes(crc: bv32)
    ensures Widened(HighCrcBytes(crc)[0]) == crc / 0x1_0000 % 256
    ensures Widened(HighCrcBytes(crc)[1]) == crc / 0x100_0000
  {
  }

  /** The table of CRC-32: under each byte what the register makes of it. */
  ghost predicate IsCrcTable(tab: CrcTable) {
    forall i :: 0 <= i < TABLE_SIZE ==> tab[i] == Remainder(i as bv8)
  }

  function StandardTable(): CrcTable {
    seq(TABLE_SIZE, i requires 0 <= i < TABLE_SIZE => Remainder(i as bv8))
  }

  /** The CRC register after a run of bytes, bit by bit. */
  function Register(c: bv32, bytes: seq<bv8>): bv32
    decreases |bytes|
  {
    if bytes == [] then c else Register(Shifts(Xor32(c, Widened(bytes[0])), 8), bytes[1..])
  }

  /** With the CRC-32 table the macro is eight steps of the register. */
  lemma CrcIsBitwise(tab: CrcTable, c: bv32, b: bv8)
    requires IsCrcTable(tab)
    ensures Crc32(tab, c, b) == Shifts(Xor32(c, Widened(b)), 8)
  {
    hide Xor32, Index, High, Shifts, Widened, Remainder;
    ByteStep(c, b);
    var i := Index(c, b);
    assert i as int as bv8 == i;
    assert tab[i as int] == Remainder(i);
  }

  /** The first key is the CRC register over the plain bytes, whatever the other keys are. */
  lemma {:induction false} FirstKeyIsCrc(k: Keys, tab: CrcTable, plain: seq<bv8>)
    requires IsCrcTable(tab)
    ensures Absorb(k, tab, plain).k0 == Register(k.k0, plain)
    decreases |plain|
  {
    hide Crc32, Xor32, Shifts, Scramble, AddLowByte, HighByte, IsCrcTable, Widened;
    if plain != [] {
      CrcIsBitwise(tab, k.k0, plain[0]);
      FirstKeyIsCrc(UpdateKeys(k, tab, plain[0]), tab, plain[1..]);
    }
  }

  // The keys after the password "a".
  const KEYS_A := Keys(0x6479_9C96, 0xB303_049C, 0xA253_270A)

  /** Known answers with the table of CRC-32: the keys of the password "a", and the cipher of
      "aa" under the starting keys. */
  lemma KnownAnswers(tab: CrcTable)
    requires IsCrcTable(tab)
    ensures InitKeys([97], tab) == KEYS_A && Encode(START, tab, [97, 97]) == [0xCA, 0x52]
  {
    KnownUpdate(tab);
    KnownKeyBytes();
    hide UpdateKeys, DecryptByte;
    var one: seq<bv8>, two: seq<bv8> := [97], [97, 97];
    assert two[1..] == one && one[1..] == [];
    assert Absorb(KEYS_A, tab, []) == KEYS_A && Absorb(START, tab, one) == KEYS_A;
    assert Encode(KEYS_A, tab, one) == [0x52];
  }

  /** Known answers of single operations. */
  lemma KnownKeyBytes()
    ensures DecryptByte(START) == 171 && DecryptByte(KEYS_A) == 51
    ensures RandomByte(0x1234) == 0x24 && HighCrcBytes(0x1234_5678) == [0x34, 0x12]
  {
  }

  lemma KnownUpdate(tab: CrcTable)
    requires IsCrcTable(tab)
    ensures UpdateKeys(START, tab, 97) == KEYS_A
  {
    KnownRemainders();
    hide Remainder;
    assert tab[0x19] == 0x646B_A8C0 && tab[0x23] == 0xA267_7172;
    hide IsCrcTable;
  }

  /** There is such a table. */
  lemma StandardTableIsCrc()
    ensures IsCrcTable(StandardTable())
  {
  }
}
