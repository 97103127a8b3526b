/** The LZMA bit-tree decoder: an `n`-bit symbol is decoded as `n` binary
    decisions, one per level of a complete binary tree whose nodes each own an
    adaptive probability model.  The models live in one array, indexed by node
    number (the root is node 1; index 0 is unused). */
module BitTree {
  import opened JavaInt
  import opened BitStrings
  import opened RangeDecoder
  import opened TreeWalk

  class BitTreeDecoder {
    /** One probability model per tree node. */
    const Models: array<Prob>
    /** The number of bits in a decoded symbol: the depth of the tree. */
    const NumBitLevels: int

    /** The array holds exactly the 2^NumBitLevels node slots.  The width bound
        keeps every value the decoding loops compute within a Java `int`
        (`LoopValuesFitInt`). */
    ghost predicate Valid()
    {
      0 <= NumBitLevels <= MaxBitLevels && Models.Length == Pow2(NumBitLevels)
    }

    constructor (numBitLevels: int)
      requires 0 <= numBitLevels <= MaxBitLevels
      ensures Valid() && fresh(Models)
      ensures NumBitLevels == numBitLevels
      ensures Models.Length == Pow2(numBitLevels)
      ensures forall i :: 0 <= i < Models.Length ==> Models[i] == 0
    {
      ShiftLeftOneExact(numBitLevels);
      NumBitLevels := numBitLevels;
      Models := new Prob[ShiftLeftOne(numBitLevels)](_ => 0);
    }

    /** Decodes a symbol most significant bit first: the returned value is the
        bits the walk reads, as a big-endian number, and the models, the range
        decoder and its probe log end as the walk leaves them. */
    method Decode(rangeDecoder: Decoder) returns (r: int)
      requires Valid()
      modifies Models, rangeDecoder
      ensures var w := Walk(rangeDecoder.coder, 0, Begin(old(Models[..]), old(rangeDecoder.state), old(rangeDecoder.Probed)), NumBitLevels);
        && r == BigEndian(w.bits)
        && Models[..] == w.models
        && rangeDecoder.state == w.state
        && rangeDecoder.Probed == w.probes
      ensures 0 <= r < Pow2(NumBitLevels)
      ensures |rangeDecoder.Probed| == |old(rangeDecoder.Probed)| + NumBitLevels
      ensures forall j :: |old(rangeDecoder.Probed)| <= j < |rangeDecoder.Probed| ==> 0 < rangeDecoder.Probed[j] < Pow2(NumBitLevels)
    {
      ghost var c := rangeDecoder.coder;
      WalkFromRoot(c, 0, Models[..], rangeDecoder.state, rangeDecoder.Probed, NumBitLevels);
      ghost var whole := Walk(c, 0, Begin(Models[..], rangeDecoder.state, rangeDecoder.Probed), NumBitLevels);
      ghost var read: seq<Bit> := [];
      var m: int := 1;
      var bitIndex := NumBitLevels;
      while bitIndex != 0
        invariant 0 <= bitIndex <= NumBitLevels
        invariant |read| == NumBitLevels - bitIndex
        invariant OnPath(0, Cursor(m, read, Models[..], rangeDecoder.state, rangeDecoder.Probed), NumBitLevels)
        invariant whole == Walk(c, 0, Cursor(m, read, Models[..], rangeDecoder.state, rangeDecoder.Probed), NumBitLevels)
      {
        ghost var cur := Cursor(m, read, Models[..], rangeDecoder.state, rangeDecoder.Probed);
        NodeInTree(0, cur, NumBitLevels);
        var bit := rangeDecoder.DecodeBit(Models, m);
        Advance(c, 0, cur, NumBitLevels, m, bit, Models[..], rangeDecoder.state, rangeDecoder.Probed);
        read := read + [bit];
        m := 2 * m + bit;  // (m << 1) + bit
        bitIndex := bitIndex - 1;
      }
      StripSentinel(read, m, NumBitLevels);
      r := m - ShiftLeftOne(NumBitLevels);
    }

    /** Decodes a symbol least significant bit first: the returned value is the
        bits the walk reads, as a little-endian number; the models are probed
        along the same path, in the same order, as `Decode` probes them. */
    method ReverseDecode(rangeDecoder: Decoder) returns (symbol: int)
      requires Valid()
      modifies Models, rangeDecoder
      ensures var w := Walk(rangeDecoder.coder, 0, Begin(old(Models[..]), old(rangeDecoder.state), old(rangeDecoder.Probed)), NumBitLevels);
        && symbol == LittleEndian(w.bits)
        && Models[..] == w.models
        && rangeDecoder.state == w.state
        && rangeDecoder.Probed == w.probes
      ensures 0 <= symbol < Pow2(NumBitLevels)
      ensures |rangeDecoder.Probed| == |old(rangeDecoder.Probed)| + NumBitLevels
      ensures forall j :: |old(rangeDecoder.Probed)| <= j < |rangeDecoder.Probed| ==> 0 < rangeDecoder.Probed[j] < Pow2(NumBitLevels)
    {
      ghost var c := rangeDecoder.coder;
      WalkFromRoot(c, 0, Models[..], rangeDecoder.state, rangeDecoder.Probed, NumBitLevels);
      ghost var whole := Walk(c, 0, Begin(Models[..], rangeDecoder.state, rangeDecoder.Probed), NumBitLevels);
      ghost var read: seq<Bit> := [];
      var m: int := 1;
      symbol := 0;
      for bitIndex := 0 to NumBitLevels
        invariant |read| == bitIndex
        invariant symbol == LittleEndian(read)
        invariant OnPath(0, Cursor(m, read, Models[..], rangeDecoder.state, rangeDecoder.Probed), NumBitLevels)
        invariant whole == Walk(c, 0, Cursor(m, read, Models[..], rangeDecoder.state, rangeDecoder.Probed), NumBitLevels)
      {
        ghost var cur := Cursor(m, read, Models[..], rangeDecoder.state, rangeDecoder.Probed);
        NodeInTree(0, cur, NumBitLevels);
        var bit := rangeDecoder.DecodeBit(Models, m);
        Advance(c, 0, cur, NumBitLevels, m, bit, Models[..], rangeDecoder.state, rangeDecoder.Probed);
        AccumulateBit(read, symbol, bit);
        read := read + [bit];
        m := 2 * m;       // m <<= 1
        m := m + bit;
        symbol := Or(symbol, ShiftLeft(bit, bitIndex));  // symbol |= (bit << bitIndex)
      }
    }

    /** `ReverseDecode` for a tree stored at offset `startIndex` of a shared
        array: the walk probes only `Models[startIndex + 1 .. startIndex + 2^n - 1]`
        (`WalkFrame`, `PathWithinTree`), and the bits read are returned as a
        little-endian number.  A non-positive width decodes nothing and returns 0. */
    static method ReverseDecodeAt(Models: array<Prob>, startIndex: int, rangeDecoder: Decoder, NumBitLevels: int)
      returns (symbol: int)
      requires NumBitLevels <= MaxBitLevels
      requires Fits(startIndex, Levels(NumBitLevels), Models.Length)
      modifies Models, rangeDecoder
      ensures var w := Walk(rangeDecoder.coder, startIndex, Begin(old(Models[..]), old(rangeDecoder.state), old(rangeDecoder.Probed)), Levels(NumBitLevels));
        && symbol == LittleEndian(w.bits)
        && Models[..] == w.models
        && rangeDecoder.state == w.state
        && rangeDecoder.Probed == w.probes
      ensures 0 <= symbol < Pow2(Levels(NumBitLevels))
      ensures |rangeDecoder.Probed| == |old(rangeDecoder.Probed)| + Levels(NumBitLevels)
      ensures forall j :: |old(rangeDecoder.Probed)| <= j < |rangeDecoder.Probed| ==>
        startIndex < rangeDecoder.Probed[j] < startIndex + Pow2(Levels(NumBitLevels))
      ensures forall j :: 0 <= j < Models.Length && (j <= startIndex || startIndex + Pow2(Levels(NumBitLevels)) <= j) ==>
        Models[j] == old(Models[j])
    {
      ghost var n: nat := if NumBitLevels < 0 then 0 else NumBitLevels;
      ghost var c := rangeDecoder.coder;
      WalkFromRoot(c, startIndex, Models[..], rangeDecoder.state, rangeDecoder.Probed, n);
      ghost var whole := Walk(c, startIndex, Begin(Models[..], rangeDecoder.state, rangeDecoder.Probed), n);
      ghost var read: seq<Bit> := [];
      var m: int := 1;
      symbol := 0;
      var bitIndex := 0;
      while bitIndex < NumBitLevels
        invariant 0 <= bitIndex <= n
        invariant |read| == bitIndex
        invariant symbol == LittleEndian(read)
        invariant OnPath(startIndex, Cursor(m, read, Models[..], rangeDecoder.state, rangeDecoder.Probed), n)
        invariant whole == Walk(c, startIndex, Cursor(m, read, Models[..], rangeDecoder.state, rangeDecoder.Probed), n)
      {
        ghost var cur := Cursor(m, read, Models[..], rangeDecoder.state, rangeDecoder.Probed);
        NodeInTree(startIndex, cur, n);
        var bit := rangeDecoder.DecodeBit(Models, startIndex + m);
        Advance(c, startIndex, cur, n, startIndex + m, bit, Models[..], rangeDecoder.state, rangeDecoder.Probed);
        AccumulateBit(read, symbol, bit);
        read := read + [bit];
        m := 2 * m;       // m <<= 1
        m := m + bit;
        symbol := Or(symbol, ShiftLeft(bit, bitIndex));  // symbol |= (bit << bitIndex)
        bitIndex := bitIndex + 1;
      }
      assert |read| == n;
    }
  }

  /** The number of loop iterations `for (bitIndex = 0; bitIndex < n; ...)` runs. */
  function Levels(n: int): nat
  {
    if n < 0 then 0 else n
  }

  /** With the same range decoder behaviour and the same models, `Decode` and
      `ReverseDecode` probe the same indices in the same order, leave the models
      alike, and return `n`-bit reversals of each other. */
  method DecodersAgree(forward: BitTreeDecoder, reverse: BitTreeDecoder, d1: Decoder, d2: Decoder)
    returns (r: int, rev: int)
    requires forward.Valid() && reverse.Valid() && forward.Models != reverse.Models && d1 != d2
    requires forward.NumBitLevels == reverse.NumBitLevels && forward.Models[..] == reverse.Models[..]
    requires d1.coder == d2.coder && d1.state == d2.state && d1.Probed == d2.Probed
    modifies forward.Models, reverse.Models, d1, d2
    ensures 0 <= r && 0 <= rev
    ensures rev == ReverseBits(r, forward.NumBitLevels) && r == ReverseBits(rev, forward.NumBitLevels)
    ensures forward.Models[..] == reverse.Models[..]
    ensures d1.state == d2.state && d1.Probed == d2.Probed
  {
    ghost var w := Walk(d1.coder, 0, Begin(forward.Models[..], d1.state, d1.Probed), forward.NumBitLevels);
    WalkFromRoot(d1.coder, 0, forward.Models[..], d1.state, d1.Probed, forward.NumBitLevels);
    r := forward.Decode(d1);
    rev := reverse.ReverseDecode(d2);
    ReverseOfDecodeSymbol(w.bits);
    DecodeOfReverseSymbol(w.bits);
  }

  /** A tree stored at offset `startIndex` of a shared array, decoded by the
      static `ReverseDecode`, behaves as a tree that owns that window as its
      own array: with the same range decoder behaviour both decode the same
      symbol, each probe is the other's shifted by `startIndex`, the window
      ends up as the tree's array does, and nothing outside the window
      changes.  At offset 0 the two methods agree outright. */
  method ReverseDecodersAgree(tree: BitTreeDecoder, models: array<Prob>, startIndex: nat, d1: Decoder, d2: Decoder)
    returns (own: int, shared: int)
    requires tree.Valid() && models != tree.Models && d1 != d2
    requires startIndex + tree.Models.Length <= models.Length
    requires models[startIndex..startIndex + tree.Models.Length] == tree.Models[..]
    requires d1.coder == d2.coder && d1.state == d2.state && d1.Probed == d2.Probed
    modifies tree.Models, models, d1, d2
    ensures own == shared
    ensures models[startIndex..startIndex + tree.Models.Length] == tree.Models[..]
    ensures forall j :: 0 <= j < models.Length && (j < startIndex || startIndex + tree.Models.Length <= j) ==>
      models[j] == old(models[j])
    ensures d1.state == d2.state
    ensures |d1.Probed| == |d2.Probed| == |old(d1.Probed)| + tree.NumBitLevels
    ensures forall j :: 0 <= j < |d1.Probed| ==>
      d2.Probed[j] == if j < |old(d1.Probed)| then d1.Probed[j] else startIndex + d1.Probed[j]
  {
    WindowedWalk(d1.coder, startIndex, models[..], tree.Models[..], d1.state, d1.Probed, tree.NumBitLevels);
    own := tree.ReverseDecode(d1);
    shared := BitTreeDecoder.ReverseDecodeAt(models, startIndex, d2, tree.NumBitLevels);
  }
}
