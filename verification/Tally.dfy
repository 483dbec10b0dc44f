/** The symbol buffer and the frequency counters of deflate: `_tr_tally_lit` and
    `_tr_tally_dist`. */
module Tally {
  import opened Bytes
  import opened DeflateTables
  import opened Distances

  const LITERALS := 256
  const L_CODES := LITERALS + 1 + LENGTH_CODES
  const HEAP_SIZE := 2 * L_CODES + 1
  const D_TREE_SIZE := 2 * D_CODES + 1
  const USH_MODULUS := 0x1_0000

  /** What is tallied: a literal byte, or a match with its distance and its length minus three. */
  datatype Symbol = Literal(c: Byte) | Match(distance: nat, len: Byte)

  predicate IsSymbol(s: Symbol) {
    s.Match? ==> 1 <= s.distance <= MAX_DISTANCE
  }

  predicate AreSymbols(syms: seq<Symbol>) {
    forall i :: 0 <= i < |syms| ==> IsSymbol(syms[i])
  }

  /** The three bytes of a symbol in `sym_buf`. */
  function Packed(s: Symbol): (p: seq<Byte>)
    requires IsSymbol(s)
    ensures |p| == 3
  {
    match s
    case Literal(c) => [0, 0, c]
    case Match(distance, len) => [distance % 256, distance / 256, len]
  }

  /** The reading of three bytes: a zero distance marks a literal. */
  function Unpacked(b0: Byte, b1: Byte, b2: Byte): Symbol {
    var distance := b0 + 256 * b1;
    if distance == 0 then Literal(b2) else Match(distance, b2)
  }

  function PackedAll(syms: seq<Symbol>): (p: seq<Byte>)
    requires AreSymbols(syms)
    ensures |p| == 3 * |syms|
    decreases |syms|
  {
    if syms == [] then [] else PackedAll(syms[..|syms| - 1]) + Packed(syms[|syms| - 1])
  }

  function UnpackedAll(buf: seq<Byte>): (syms: seq<Symbol>)
    requires |buf| % 3 == 0
    ensures 3 * |syms| == |buf|
    decreases |buf|
  {
    if buf == [] then []
    else [Unpacked(buf[0], buf[1], buf[2])] + UnpackedAll(buf[3..])
  }

  /** Index of the literal/length counter of a symbol. */
  function LIndex(s: Symbol): (i: nat)
    ensures s.Literal? ==> i < LITERALS
  {
    match s
    case Literal(c) => c
    case Match(_, len) => LengthCode(len) + LITERALS + 1
  }

  /** Index of the distance counter of a match. */
  function DIndex(s: Symbol): nat
    requires IsSymbol(s) && s.Match?
  {
    DCode(s.distance - 1)
  }

  /** How many of the symbols use literal/length counter `i`. */
  function LCount(syms: seq<Symbol>, i: nat): (n: nat)
    ensures n <= |syms|
    decreases |syms|
  {
    if syms == [] then 0
    else LCount(syms[..|syms| - 1], i) + (if LIndex(syms[|syms| - 1]) == i then 1 else 0)
  }

  /** How many of the symbols use distance counter `i`. */
  function DCount(syms: seq<Symbol>, i: nat): (n: nat)
    requires AreSymbols(syms)
    ensures n <= |syms|
    decreases |syms|
  {
    if syms == [] then 0
    else
      var last := syms[|syms| - 1];
      DCount(syms[..|syms| - 1], i) + (if last.Match? && DIndex(last) == i then 1 else 0)
  }

  function Matches(syms: seq<Symbol>): nat
    decreases |syms|
  {
    if syms == [] then 0
    else Matches(syms[..|syms| - 1]) + (if syms[|syms| - 1].Match? then 1 else 0)
  }

  // ---------------------------------------------------------------------------
  // The buffer decodes to what was tallied
  // ---------------------------------------------------------------------------

  lemma UnpackUndoesPack(s: Symbol)
    requires IsSymbol(s)
    ensures var p := Packed(s); Unpacked(p[0], p[1], p[2]) == s
  {
  }

  lemma {:induction false} UnpackedAppend(buf: seq<Byte>, p: seq<Byte>)
    requires |buf| % 3 == 0 && |p| == 3
    ensures UnpackedAll(buf + p) == UnpackedAll(buf) + [Unpacked(p[0], p[1], p[2])]
    decreases |buf|
  {
    hide Unpacked;
    if buf == [] {
      assert buf + p == p && p[3..] == [];
    } else {
      assert (buf + p)[3..] == buf[3..] + p;
      UnpackedAppend(buf[3..], p);
    }
  }

  lemma {:induction false} BufferDecodes(syms: seq<Symbol>)
    requires AreSymbols(syms)
    ensures UnpackedAll(PackedAll(syms)) == syms
    decreases |syms|
  {
    hide Unpacked, Packed;
    if syms != [] {
      var front, last := syms[..|syms| - 1], syms[|syms| - 1];
      BufferDecodes(front);
      UnpackUndoesPack(last);
      UnpackedAppend(PackedAll(front), Packed(last));
      assert syms == front + [last];
    }
  }

  // ---------------------------------------------------------------------------
  // The counters add up
  // ---------------------------------------------------------------------------

  function LSum(syms: seq<Symbol>, n: nat): nat {
    if n == 0 then 0 else LSum(syms, n - 1) + LCount(syms, n - 1)
  }

  function DSum(syms: seq<Symbol>, n: nat): nat
    requires AreSymbols(syms)
  {
    if n == 0 then 0 else DSum(syms, n - 1) + DCount(syms, n - 1)
  }

  lemma LIndexInTree(s: Symbol)
    ensures LIndex(s) < L_CODES && LIndex(s) != LITERALS
  {
    if s.Match? {
      LengthCodeCovers(s.len);
    }
    hide LengthCode;
  }

  lemma DIndexInTree(s: Symbol)
    requires IsSymbol(s) && s.Match?
    ensures DIndex(s) < D_CODES
  {
    CodeCovers(s.distance - 1);
    hide DCode;
  }

  lemma {:induction false} LSumSnoc(front: seq<Symbol>, last: Symbol, n: nat)
    ensures LSum(front + [last], n) == LSum(front, n) + (if LIndex(last) < n then 1 else 0)
    decreases n
  {
    hide LIndex;
    if n > 0 {
      LSumSnoc(front, last, n - 1);
      assert (front + [last])[..|front|] == front;
    }
  }

  lemma {:induction false} DSumSnoc(front: seq<Symbol>, last: Symbol, n: nat)
    requires AreSymbols(front + [last])
    ensures IsSymbol(last) && AreSymbols(front)
    ensures DSum(front + [last], n) == DSum(front, n) + (if last.Match? && DIndex(last) < n then 1 else 0)
    decreases n
  {
    hide DIndex;
    assert (front + [last])[|front|] == last;
    assert front == (front + [last])[..|front|];
    if n > 0 {
      DSumSnoc(front, last, n - 1);
      assert (front + [last])[..|front|] == front;
    }
  }

  lemma {:induction false} ZeroSums(n: nat)
    ensures LSum([], n) == 0 && DSum([], n) == 0
  {
    if n > 0 {
      ZeroSums(n - 1);
    }
  }

  /** Conservation: the literal/length counters add up to the number of symbols, the distance
      counters to the number of matches, and the end-of-block counter is not touched. */
  lemma {:induction false} CountersAddUp(syms: seq<Symbol>)
    requires AreSymbols(syms)
    ensures LSum(syms, L_CODES) == |syms| && DSum(syms, D_CODES) == Matches(syms)
    ensures LCount(syms, LITERALS) == 0
    decreases |syms|
  {
    hide LIndex, DIndex, LSum, DSum;
    if syms == [] {
      ZeroSums(L_CODES);
      ZeroSums(D_CODES);
    } else {
      var front, last := syms[..|syms| - 1], syms[|syms| - 1];
      CountersAddUp(front);
      assert syms == front + [last];
      LSumSnoc(front, last, L_CODES);
      DSumSnoc(front, last, D_CODES);
      LIndexInTree(last);
      if last.Match? {
        DIndexInTree(last);
      }
    }
  }

  // ---------------------------------------------------------------------------
  // What the counters count
  // ---------------------------------------------------------------------------

  /** The matches whose length, minus three, is from `lo` up to but not including `hi`. */
  function LengthMatches(syms: seq<Symbol>, lo: nat, hi: nat): nat
    decreases |syms|
  {
    if syms == [] then 0
    else
      var last := syms[|syms| - 1];
      LengthMatches(syms[..|syms| - 1], lo, hi) + (if last.Match? && lo <= last.len < hi then 1 else 0)
  }

  /** The matches whose distance, minus one, is from `lo` up to but not including `hi`. */
  function DistanceMatches(syms: seq<Symbol>, lo: nat, hi: nat): nat
    decreases |syms|
  {
    if syms == [] then 0
    else
      var last := syms[|syms| - 1];
      DistanceMatches(syms[..|syms| - 1], lo, hi)
      + (if last.Match? && lo <= last.distance - 1 < hi then 1 else 0)
  }

  /** Counter `b` counts the literal `b`. */
  lemma {:induction false} CountsLiteral(syms: seq<Symbol>, b: Byte)
    ensures LCount(syms, b) == multiset(syms)[Literal(b)]
    decreases |syms|
  {
    hide LengthCode;
    if syms != [] {
      var front, last := syms[..|syms| - 1], syms[|syms| - 1];
      CountsLiteral(front, b);
      assert syms == front + [last];
    }
  }

  /** Counter 257 + `k` counts the matches with the lengths of length code `k`. */
  lemma {:induction false} CountsLengths(syms: seq<Symbol>, k: nat)
    requires k < LENGTH_CODES
    ensures LCount(syms, 257 + k) == LengthMatches(syms, LengthBegin(k), LengthEnd(k))
    decreases |syms|
  {
    hide LengthCode, LengthBegin, LengthEnd;
    if syms != [] {
      var last := syms[|syms| - 1];
      CountsLengths(syms[..|syms| - 1], k);
      if last.Match? {
        LengthCodeIff(last.len, k);
      }
    }
  }

  /** Distance counter `k` counts the matches with the distances of distance code `k`. */
  lemma {:induction false} CountsDistances(syms: seq<Symbol>, k: nat)
    requires AreSymbols(syms) && k < D_CODES
    ensures DCount(syms, k) == DistanceMatches(syms, BaseDist(k), DistEnd(k))
    decreases |syms|
  {
    hide DCode, BaseDist, DistEnd;
    if syms != [] {
      var last := syms[|syms| - 1];
      CountsDistances(syms[..|syms| - 1], k);
      if last.Match? {
        CodeIff(last.distance - 1, k);
      }
    }
  }

  /** Every counter, by what it counts. */
  ghost predicate Tallied(ltree: seq<nat>, dtree: seq<nat>, syms: seq<Symbol>) {
    && |ltree| == HEAP_SIZE && |dtree| == D_TREE_SIZE
    && (forall b: Byte :: ltree[b] == multiset(syms)[Literal(b)])
    && ltree[256] == 0
    && (forall k :: 0 <= k < LENGTH_CODES ==> ltree[257 + k] == LengthMatches(syms, LengthBegin(k), LengthEnd(k)))
    && (forall k :: 0 <= k < D_CODES ==> dtree[k] == DistanceMatches(syms, BaseDist(k), DistEnd(k)))
  }

  lemma ExactCountsTally(ltree: seq<nat>, dtree: seq<nat>, syms: seq<Symbol>)
    requires AreSymbols(syms) && ExactCounts(ltree, dtree, syms)
    ensures Tallied(ltree, dtree, syms)
  {
    hide LCount, DCount, LengthMatches, DistanceMatches, LengthBegin, LengthEnd, DistEnd, BaseDist;
    CountersAddUp(syms);
    forall b: Byte
      ensures ltree[b] == multiset(syms)[Literal(b)]
    {
      CountsLiteral(syms, b);
    }
    forall k | 0 <= k < LENGTH_CODES
      ensures ltree[257 + k] == LengthMatches(syms, LengthBegin(k), LengthEnd(k))
    {
      CountsLengths(syms, k);
    }
    forall k | 0 <= k < D_CODES
      ensures dtree[k] == DistanceMatches(syms, BaseDist(k), DistEnd(k))
    {
      CountsDistances(syms, k);
    }
  }

  // ---------------------------------------------------------------------------
  // The counters as they are stored: sixteen bits each
  // ---------------------------------------------------------------------------

  ghost predicate LCounted(tree: seq<nat>, syms: seq<Symbol>) {
    |tree| == HEAP_SIZE && forall i :: 0 <= i < HEAP_SIZE ==> tree[i] == LCount(syms, i) % USH_MODULUS
  }

  ghost predicate DCounted(tree: seq<nat>, syms: seq<Symbol>)
    requires AreSymbols(syms)
  {
    |tree| == D_TREE_SIZE && forall i :: 0 <= i < D_TREE_SIZE ==> tree[i] == DCount(syms, i) % USH_MODULUS
  }

  /** Every counter is the count of its symbol. */
  ghost predicate ExactCounts(ltree: seq<nat>, dtree: seq<nat>, syms: seq<Symbol>)
    requires AreSymbols(syms)
  {
    && |ltree| == HEAP_SIZE && (forall i :: 0 <= i < HEAP_SIZE ==> ltree[i] == LCount(syms, i))
    && |dtree| == D_TREE_SIZE && (forall i :: 0 <= i < D_TREE_SIZE ==> dtree[i] == DCount(syms, i))
  }

  /** Up to 65535 symbols no counter wraps. */
  lemma SmallCountsAreExact(ltree: seq<nat>, dtree: seq<nat>, syms: seq<Symbol>)
    requires AreSymbols(syms)
    requires LCounted(ltree, syms) && DCounted(dtree, syms) && |syms| < USH_MODULUS
    ensures ExactCounts(ltree, dtree, syms)
  {
    hide LIndex, DIndex;
  }

  function Bumped(tree: seq<nat>, i: nat): seq<nat>
    requires i < |tree|
  {
    tree[i := (tree[i] + 1) % USH_MODULUS]
  }

  lemma LCountedNext(tree: seq<nat>, syms: seq<Symbol>, s: Symbol)
    requires LCounted(tree, syms)
    ensures LIndex(s) < |tree| && LCounted(Bumped(tree, LIndex(s)), syms + [s])
  {
    LIndexInTree(s);
    hide LIndex;
    assert (syms + [s])[..|syms|] == syms;
  }

  lemma DCountSnoc(syms: seq<Symbol>, s: Symbol, i: nat)
    requires IsSymbol(s) && AreSymbols(syms)
    ensures AreSymbols(syms + [s])
    ensures DCount(syms + [s], i) == DCount(syms, i) + (if s.Match? && DIndex(s) == i then 1 else 0)
  {
    hide DIndex;
    assert (syms + [s])[..|syms|] == syms;
  }

  lemma DCountedNext(tree: seq<nat>, syms: seq<Symbol>, s: Symbol)
    requires IsSymbol(s) && AreSymbols(syms) && DCounted(tree, syms)
    ensures AreSymbols(syms + [s])
    ensures s.Literal? ==> DCounted(tree, syms + [s])
    ensures s.Match? ==> DIndex(s) < |tree| && DCounted(Bumped(tree, DIndex(s)), syms + [s])
  {
    if s.Match? {
      DIndexInTree(s);
    }
    hide DIndex;
    forall i | 0 <= i < D_TREE_SIZE
      ensures AreSymbols(syms + [s])
      ensures DCount(syms + [s], i) == DCount(syms, i) + (if s.Match? && DIndex(s) == i then 1 else 0)
    {
      DCountSnoc(syms, s, i);
    }
    hide DCount;
  }

  /** Buffer and counters describe the symbols. */
  ghost predicate Describes(buf: seq<Byte>, ltree: seq<nat>, dtree: seq<nat>, syms: seq<Symbol>)
    requires AreSymbols(syms)
  {
    buf == PackedAll(syms) && LCounted(ltree, syms) && DCounted(dtree, syms)
  }

  /** One more symbol: three bytes, one literal/length counter and, for a match, one distance
      counter. */
  lemma DescribesNext(buf: seq<Byte>, ltree: seq<nat>, dtree: seq<nat>, syms: seq<Symbol>, s: Symbol)
    requires IsSymbol(s) && AreSymbols(syms) && Describes(buf, ltree, dtree, syms)
    ensures AreSymbols(syms + [s]) && LIndex(s) < |ltree| && (s.Match? ==> DIndex(s) < |dtree|)
    ensures Describes(buf + Packed(s), Bumped(ltree, LIndex(s)),
                      if s.Match? then Bumped(dtree, DIndex(s)) else dtree, syms + [s])
  {
    LCountedNext(ltree, syms, s);
    DCountedNext(dtree, syms, s);
    hide LIndex, DIndex, LCounted, DCounted, Bumped, Packed;
    assert (syms + [s])[..|syms|] == syms;
  }

  method Bump(tree: array<nat>, i: nat)
    requires i < tree.Length
    modifies tree
    ensures tree[..] == Bumped(old(tree[..]), i)
  {
    tree[i] := (tree[i] + 1) % USH_MODULUS;
  }

  // ---------------------------------------------------------------------------
  // The state, updated in place
  // ---------------------------------------------------------------------------

  class TallyState {
    var sym_buf: array<Byte>
    var sym_next: nat
    var sym_end: nat
    var dyn_ltree: array<nat>  // the Freq fields
    var dyn_dtree: array<nat>

    // The symbols tallied since the counters were zeroed.
    ghost var symbols: seq<Symbol>

    ghost predicate Shape()
      reads this
    {
      && sym_end % 3 == 0 && 3 * |symbols| == sym_next <= sym_end <= sym_buf.Length
      && dyn_ltree != dyn_dtree && sym_buf as object != dyn_ltree && sym_buf as object != dyn_dtree
      && AreSymbols(symbols)
    }

    ghost predicate Valid()
      reads this, sym_buf, dyn_ltree, dyn_dtree
    {
      && Shape()
      && Describes(sym_buf[..sym_next], dyn_ltree[..], dyn_dtree[..], symbols)
    }

    /** An empty buffer that is full at `end`, and zeroed counters. */
    constructor (size: nat, end: nat)
      requires end % 3 == 0 && end <= size
      ensures Valid() && symbols == [] && sym_end == end
      ensures fresh(sym_buf) && fresh(dyn_ltree) && fresh(dyn_dtree)
    {
      sym_buf := new Byte[size];
      sym_next, sym_end := 0, end;
      dyn_ltree := new nat[HEAP_SIZE](_ => 0);
      dyn_dtree := new nat[D_TREE_SIZE](_ => 0);
      symbols := [];
    }

    /** The three stores into the symbol buffer. */
    method Push(s: Symbol)
      requires Shape() && sym_next < sym_end && IsSymbol(s)
      modifies this`sym_next, this`symbols, sym_buf
      ensures symbols == old(symbols) + [s] && Shape()
      ensures sym_buf[..sym_next] == old(sym_buf[..sym_next]) + Packed(s)
    {
      hide Packed;
      var p := Packed(s);
      sym_buf[sym_next] := p[0];
      sym_buf[sym_next + 1] := p[1];
      sym_buf[sym_next + 2] := p[2];
      sym_next := sym_next + 3;
      symbols := symbols + [s];
    }

    /** `_tr_tally_lit`: three bytes, one counter; the literal joins the tallied symbols, and
        flush is raised exactly when the buffer is full. */
    method TallyLit(c: Byte) returns (flush: bool)
      requires Valid() && sym_next < sym_end
      modifies this`sym_next, this`symbols, sym_buf, dyn_ltree
      ensures Valid() && symbols == old(symbols) + [Literal(c)]
      ensures sym_buf[..sym_next] == old(sym_buf[..sym_next]) + [0, 0, c]
      ensures dyn_ltree[..] == old(dyn_ltree[..])[c := (old(dyn_ltree[c]) + 1) % 0x1_0000]
      ensures flush <==> sym_next == sym_end
    {
      ghost var ltree, dtree := dyn_ltree[..], dyn_dtree[..];
      DescribesNext(sym_buf[..sym_next], ltree, dtree, symbols, Literal(c));
      hide Describes, Packed, Bumped;
      Push(Literal(c));
      assert dyn_ltree[..] == ltree;
      Bump(dyn_ltree, c);
      assert dyn_dtree[..] == dtree;
      flush := sym_next == sym_end;
    }

    /** `_tr_tally_dist`: the same for a match. */
    method TallyDist(distance: nat, length: Byte) returns (flush: bool)
      requires Valid() && sym_next < sym_end && 1 <= distance <= MAX_DISTANCE
      modifies this`sym_next, this`symbols, sym_buf, dyn_ltree, dyn_dtree
      ensures Valid() && symbols == old(symbols) + [Match(distance, length)]
      ensures sym_buf[..sym_next] == old(sym_buf[..sym_next]) + [distance % 256, distance / 256, length]
      ensures flush <==> sym_next == sym_end
    {
      ghost var ltree, dtree := dyn_ltree[..], dyn_dtree[..];
      DescribesNext(sym_buf[..sym_next], ltree, dtree, symbols, Match(distance, length));
      hide Describes, Packed, Bumped, LengthCode, DCode;
      Push(Match(distance, length));
      assert dyn_ltree[..] == ltree && dyn_dtree[..] == dtree;
      ghost var packed := sym_buf[..sym_next];
      Count(LengthCode(length) + LITERALS + 1, DCode(distance - 1));
      assert sym_buf[..sym_next] == packed;
      flush := sym_next == sym_end;
    }

    /** The two increments for a match. */
    method Count(l: nat, d: nat)
      requires Shape() && l < dyn_ltree.Length && d < dyn_dtree.Length
      modifies dyn_ltree, dyn_dtree
      ensures dyn_ltree[..] == Bumped(old(dyn_ltree[..]), l) && dyn_dtree[..] == Bumped(old(dyn_dtree[..]), d)
    {
      hide Bumped;
      ghost var dtree := dyn_dtree[..];
      Bump(dyn_ltree, l);
      assert dyn_dtree[..] == dtree;
      ghost var ltree := dyn_ltree[..];
      Bump(dyn_dtree, d);
      assert dyn_ltree[..] == ltree;
    }

    /** Tallies symbols until flush is raised or none is left: none is lost, and the flag comes
        with the last free slot, neither earlier nor later. */
    method TallyBlock(syms: seq<Symbol>) returns (n: nat)
      requires Valid() && sym_next < sym_end && AreSymbols(syms)
      modifies this`sym_next, this`symbols, sym_buf, dyn_ltree, dyn_dtree
      ensures n <= |syms| && Valid() && symbols == old(symbols) + syms[..n]
      ensures var room := (sym_end - old(sym_next)) / 3; n == if |syms| <= room then |syms| else room
    {
      hide Describes;
      n := 0;
      var flush := false;
      while n < |syms| && !flush
        invariant n <= |syms| && Valid() && symbols == old(symbols) + syms[..n]
        invariant flush <==> sym_next == sym_end
        invariant sym_next <= sym_end
      {
        match syms[n] {
          case Literal(c) => flush := TallyLit(c);
          case Match(distance, len) => flush := TallyDist(distance, len);
        }
        n := n + 1;
      }
    }

    /** What any sequence of tallies leaves, with a buffer of at most 65535 symbols: the buffer
        decodes to the tallied symbols; counter `b` is the number of literals `b`, counter
        257 + `k` and distance counter `k` the number of matches in the range of code `k`; and
        the counters add up to the symbols and to the matches. */
    lemma TalliesAreExact()
      requires Valid() && sym_end <= 3 * 65535
      ensures UnpackedAll(sym_buf[..sym_next]) == symbols
      ensures Tallied(dyn_ltree[..], dyn_dtree[..], symbols)
      ensures LSum(symbols, L_CODES) == sym_next / 3 && DSum(symbols, D_CODES) == Matches(symbols)
    {
      hide LIndex, DIndex, UnpackedAll, PackedAll, LSum, DSum, LCounted, DCounted, ExactCounts, Matches;
      BufferDecodes(symbols);
      CountersAddUp(symbols);
      SmallCountsAreExact(dyn_ltree[..], dyn_dtree[..], symbols);
      hide Tallied;
      ExactCountsTally(dyn_ltree[..], dyn_dtree[..], symbols);
    }
  }
}
