/** What a walk down a bit tree computes from the bits it reads.  A tree of
    `n` levels is stored implicitly: the root is node 1, and the children of
    node `m` are `2m` (bit 0) and `2m + 1` (bit 1), so the node reached after
    reading `bits` is `Node(bits)` and the nodes probed on the way are
    `Path(start, bits)` (shifted by the offset `start` of the tree in its
    probability array). */
module BitStrings {
  import opened JavaInt

  /** The node reached from the root after taking the branches `bits`: the
      value of `m` in the decoder loops.  It keeps the leading 1 as a sentinel,
      so it lies in the row of depth |bits|. */
  function Node(bits: seq<Bit>): (m: nat)
    ensures Pow2(|bits|) <= m < Pow2(|bits| + 1)
  {
    NodeAt(bits, |bits|)
  }

  /** The node reached after the first `j` branches of `bits`: the root 1, then
      `m := 2m + b` for each branch `b`, as the loops compute it. */
  function NodeAt(bits: seq<Bit>, j: nat): (m: nat)
    requires j <= |bits|
    ensures Pow2(j) <= m < Pow2(j + 1)
  {
    if j == 0 then 1 else 2 * NodeAt(bits, j - 1) + bits[j - 1]
  }

  /** `bits` read as a binary number, first bit most significant. */
  function BigEndian(bits: seq<Bit>): (v: nat)
    ensures v < Pow2(|bits|)
  {
    if bits == [] then 0 else 2 * BigEndian(bits[..|bits| - 1]) + bits[|bits| - 1]
  }

  /** `bits` read as a binary number, first bit least significant: bit `i`
      contributes `bits[i] * 2^i`. */
  function LittleEndian(bits: seq<Bit>): (v: nat)
    ensures v < Pow2(|bits|)
  {
    LittleEndianAt(bits, |bits|)
  }

  /** The first `j` bits of `bits` read as a little-endian number. */
  function LittleEndianAt(bits: seq<Bit>, j: nat): (v: nat)
    requires j <= |bits|
    ensures v < Pow2(j)
  {
    if j == 0 then 0 else LittleEndianAt(bits, j - 1) + ShiftLeft(bits[j - 1], j - 1)
  }

  /** The array indices probed while reading `bits`, in order: the `j`-th probe
      is made at node `Node(bits[..j])`. */
  function Path(start: int, bits: seq<Bit>): (p: seq<int>)
    ensures |p| == |bits|
  {
    if bits == [] then []
    else Path(start, bits[..|bits| - 1]) + [start + Node(bits[..|bits| - 1])]
  }

  /** `NodeAt` at `j` is the node the first `j` bits lead to. */
  lemma {:induction false} NodePrefix(bits: seq<Bit>, j: nat)
    requires j <= |bits|
    ensures NodeAt(bits, j) == Node(bits[..j])
    decreases j
  {
    if j > 0 {
      var pre := bits[..j];
      NodePrefix(bits, j - 1);
      NodePrefix(pre, j - 1);
      assert pre[..j - 1] == bits[..j - 1];
    }
  }

  /** `LittleEndianAt` at `j` is the number the first `j` bits spell. */
  lemma {:induction false} LittleEndianPrefix(bits: seq<Bit>, j: nat)
    requires j <= |bits|
    ensures LittleEndianAt(bits, j) == LittleEndian(bits[..j])
    decreases j
  {
    if j > 0 {
      var pre := bits[..j];
      LittleEndianPrefix(bits, j - 1);
      LittleEndianPrefix(pre, j - 1);
      assert pre[..j - 1] == bits[..j - 1];
    }
  }

  /** The last bit read is the last branch taken. */
  lemma NodeLast(bits: seq<Bit>)
    requires bits != []
    ensures Node(bits) == 2 * Node(bits[..|bits| - 1]) + bits[|bits| - 1]
  {
    NodePrefix(bits, |bits| - 1);
  }

  /** The last bit read is the most significant bit of a little-endian number. */
  lemma LittleEndianLast(bits: seq<Bit>)
    requires bits != []
    ensures LittleEndian(bits) == LittleEndian(bits[..|bits| - 1]) + ShiftLeft(bits[|bits| - 1], |bits| - 1)
  {
    LittleEndianPrefix(bits, |bits| - 1);
  }

  /** Reading one more bit `b`: the node index `m` becomes `2m + b`. */
  lemma NodeStep(read: seq<Bit>, b: Bit)
    ensures Node(read + [b]) == 2 * Node(read) + b
  {
    NodeLast(read + [b]);
    assert (read + [b])[..|read|] == read;
  }

  /** Reading one more bit `b`: it enters the little-endian symbol at position |read|. */
  lemma LittleEndianStep(read: seq<Bit>, b: Bit)
    ensures LittleEndian(read + [b]) == LittleEndian(read) + ShiftLeft(b, |read|)
  {
    LittleEndianLast(read + [b]);
    assert (read + [b])[..|read|] == read;
  }

  /** `symbol |= bit << |read|` appends `bit` to a little-endian symbol. */
  lemma AccumulateBit(read: seq<Bit>, symbol: nat, bit: Bit)
    requires symbol == LittleEndian(read)
    ensures Or(symbol, ShiftLeft(bit, |read|)) == LittleEndian(read + [bit])
  {
    LittleEndianStep(read, bit);
    OrDisjoint(symbol, |read|, bit);
  }

  /** Reading one more bit `b` adds one probe, at the current node, to a log
      `log` of earlier probes. */
  lemma PathStep(log: seq<int>, start: int, read: seq<Bit>, b: Bit)
    ensures log + Path(start, read + [b]) == (log + Path(start, read)) + [start + Node(read)]
  {
    assert (read + [b])[..|read|] == read;
  }

  /** The low `n` bits of `x` in the opposite order. */
  function ReverseBits(x: nat, n: nat): (r: nat)
    ensures r < Pow2(n)
  {
    if n == 0 then 0 else (x % 2) * Pow2(n - 1) + ReverseBits(x / 2, n - 1)
  }

  /** The bits an encoder emits for `symbol` when the decoder reads them most
      significant first. */
  function EncodeBits(symbol: nat, n: nat): (bits: seq<Bit>)
    ensures |bits| == n
  {
    if n == 0 then [] else EncodeBits(symbol / 2, n - 1) + [symbol % 2]
  }

  /** The bits an encoder emits for `symbol` when the decoder reads them least
      significant first. */
  function ReverseEncodeBits(symbol: nat, n: nat): (bits: seq<Bit>)
    ensures |bits| == n
  {
    if n == 0 then [] else [symbol % 2] + ReverseEncodeBits(symbol / 2, n - 1)
  }

  /** After reading `bits` the loop variable `m` is the sentinel 2^|bits| plus
      the bits read so far, most significant first; so `Decode` returns
      `m - 2^n == BigEndian(bits)`. */
  lemma {:induction false} NodeIsSentinelPlusBigEndian(bits: seq<Bit>)
    ensures Node(bits) == Pow2(|bits|) + BigEndian(bits)
  {
    if bits != [] {
      NodeLast(bits);
      NodeIsSentinelPlusBigEndian(bits[..|bits| - 1]);
    }
  }

  /** In a tree of at most 30 levels, every value the decoding loops hold after
      reading `read` fits a Java `int`: the node `m` and both readings of the
      bits. */
  lemma LoopValuesFitInt(read: seq<Bit>)
    requires |read| <= MaxBitLevels
    ensures 0 < Node(read) < Int32Limit
    ensures 0 <= BigEndian(read) < Int32Limit && 0 <= LittleEndian(read) < Int32Limit
  {
    Pow2Int32();
    Pow2Monotone(|read| + 1, 31);
  }

  /** Subtracting Java's `1 << n` from the final node strips the sentinel and
      leaves the bits read, most significant first. */
  lemma StripSentinel(read: seq<Bit>, m: int, n: nat)
    requires m == Node(read) && |read| == n <= MaxBitLevels
    ensures m - ShiftLeftOne(n) == BigEndian(read) < Pow2(n)
  {
    ShiftLeftOneExact(n);
    NodeIsSentinelPlusBigEndian(read);
  }

  /** The `j`-th probe while reading `bits` is made at the node the first `j`
      bits lead to, in row `j` of the tree. */
  lemma {:induction false} PathAt(start: int, bits: seq<Bit>, j: nat)
    requires j < |bits|
    ensures Path(start, bits)[j] == start + Node(bits[..j])
    ensures start + Pow2(j) <= Path(start, bits)[j] < start + Pow2(j + 1)
  {
    var pre := bits[..|bits| - 1];
    if j < |pre| {
      PathAt(start, pre, j);
      assert pre[..j] == bits[..j];
    } else {
      assert pre == bits[..j];
    }
  }

  /** Every probe while reading `bits` lies inside the tree, that is in
      `[start + 1, start + 2^|bits|)`. */
  lemma PathWithinTree(start: int, bits: seq<Bit>)
    ensures forall j :: 0 <= j < |bits| ==> start + 1 <= Path(start, bits)[j] < start + Pow2(|bits|)
  {
    forall j | 0 <= j < |bits|
      ensures start + 1 <= Path(start, bits)[j] < start + Pow2(|bits|)
    {
      PathAt(start, bits, j);
      Pow2Monotone(0, j);
      Pow2Monotone(j + 1, |bits|);
    }
  }

  /** Reading the first bit of a big-endian string. */
  lemma {:induction false} BigEndianFront(b: Bit, rest: seq<Bit>)
    ensures BigEndian([b] + rest) == b * Pow2(|rest|) + BigEndian(rest)
  {
    var s := [b] + rest;
    if rest != [] {
      assert s[..|s| - 1] == [b] + rest[..|rest| - 1];
      BigEndianFront(b, rest[..|rest| - 1]);
    } else {
      assert s[..|s| - 1] == [];
    }
  }

  /** Reading the first bit of a little-endian string. */
  lemma {:induction false} LittleEndianFront(b: Bit, rest: seq<Bit>)
    ensures LittleEndian([b] + rest) == b + 2 * LittleEndian(rest)
  {
    var s := [b] + rest;
    if rest != [] {
      assert s[..|s| - 1] == [b] + rest[..|rest| - 1];
      LittleEndianLast(s);
      LittleEndianLast(rest);
      LittleEndianFront(b, rest[..|rest| - 1]);
    } else {
      assert s[..|s| - 1] == [];
    }
  }

  /** For the same bits read, the symbol `ReverseDecode` returns is the
      `n`-bit reversal of the one `Decode` returns ... */
  lemma {:induction false} ReverseOfDecodeSymbol(bits: seq<Bit>)
    ensures LittleEndian(bits) == ReverseBits(BigEndian(bits), |bits|)
  {
    if bits != [] {
      var pre, b := bits[..|bits| - 1], bits[|bits| - 1];
      ReverseOfDecodeSymbol(pre);
      LittleEndianLast(bits);
      var x := BigEndian(pre);
      LowBit(b, x);
      assert BigEndian(bits) == b + 2 * x;
      assert ShiftLeft(b, |pre|) == b * Pow2(|pre|);
    }
  }

  /** ... and the other way round. */
  lemma {:induction false} DecodeOfReverseSymbol(bits: seq<Bit>)
    ensures BigEndian(bits) == ReverseBits(LittleEndian(bits), |bits|)
  {
    if bits != [] {
      var b, rest := bits[0], bits[1..];
      assert bits == [b] + rest;
      LittleEndianFront(b, rest);
      BigEndianFront(b, rest);
      DecodeOfReverseSymbol(rest);
      LowBit(b, LittleEndian(rest));
    }
  }

  /** `b + 2x` has low bit `b` and the rest `x`. */
  lemma LowBit(b: Bit, x: nat)
    ensures (b + 2 * x) % 2 == b && (b + 2 * x) / 2 == x
  {
  }

  /** Bit `|bits| - 1 - i` of the `Decode` symbol is the `i`-th bit read. */
  lemma {:induction false} BigEndianBitAt(bits: seq<Bit>, i: nat)
    requires i < |bits|
    ensures BitAt(BigEndian(bits), |bits| - 1 - i) == bits[i]
  {
    var pre := bits[..|bits| - 1];
    if i < |bits| - 1 {
      BigEndianBitAt(pre, i);
    }
  }

  /** Bit `i` of the `ReverseDecode` symbol is the `i`-th bit read. */
  lemma {:induction false} LittleEndianBitAt(bits: seq<Bit>, i: nat)
    requires i < |bits|
    ensures BitAt(LittleEndian(bits), i) == bits[i]
  {
    assert bits == [bits[0]] + bits[1..];
    LittleEndianFront(bits[0], bits[1..]);
    if i > 0 {
      LittleEndianBitAt(bits[1..], i - 1);
    }
  }

  /** Every symbol below 2^n is decoded by `Decode` from exactly the bits an
      encoder emits for it ... */
  lemma {:induction false} BigEndianOfEncode(symbol: nat, n: nat)
    requires symbol < Pow2(n)
    ensures BigEndian(EncodeBits(symbol, n)) == symbol
  {
    if n > 0 {
      BigEndianOfEncode(symbol / 2, n - 1);
      var bits := EncodeBits(symbol, n);
      assert bits[..n - 1] == EncodeBits(symbol / 2, n - 1);
    }
  }

  /** ... and no other bit string of that length decodes to it. */
  lemma {:induction false} EncodeOfBigEndian(bits: seq<Bit>)
    ensures EncodeBits(BigEndian(bits), |bits|) == bits
  {
    if bits != [] {
      var pre, b := bits[..|bits| - 1], bits[|bits| - 1];
      EncodeOfBigEndian(pre);
      LowBit(b, BigEndian(pre));
      assert bits == pre + [b];
    }
  }

  /** The same round trip for `ReverseDecode` and the least-significant-first
      encoding ... */
  lemma {:induction false} LittleEndianOfEncode(symbol: nat, n: nat)
    requires symbol < Pow2(n)
    ensures LittleEndian(ReverseEncodeBits(symbol, n)) == symbol
  {
    if n > 0 {
      LittleEndianOfEncode(symbol / 2, n - 1);
      LittleEndianFront(symbol % 2, ReverseEncodeBits(symbol / 2, n - 1));
    }
  }

  /** ... in both directions. */
  lemma {:induction false} EncodeOfLittleEndian(bits: seq<Bit>)
    ensures ReverseEncodeBits(LittleEndian(bits), |bits|) == bits
  {
    if bits != [] {
      var b, rest := bits[0], bits[1..];
      assert bits == [b] + rest;
      EncodeOfLittleEndian(rest);
      LittleEndianFront(b, rest);
      LowBit(b, LittleEndian(rest));
    }
  }
}
