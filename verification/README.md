# LZMA bit-tree decoder

This project models the bit-tree decoder of the LZMA range coder that ships with
Grizzly's LZMA extra (`BitTreeDecoder`). An `n`-bit symbol is decoded as `n`
binary decisions, one per level of a complete binary tree. Every tree node owns
an adaptive probability model (a Java `short`). The models live in one array
indexed by node number: the root is node 1, node `m` has children `2m` (bit 0)
and `2m + 1` (bit 1), and index 0 is unused.

- `BitTree.BitTreeDecoder` is a class with the two fields of the Java class.
  Its constructor allocates `1 << n` models.
- `Decode` reads the bits most significant first.
- `ReverseDecode` reads the same bits least significant first.
- The static `ReverseDecode` (here `ReverseDecodeAt`) does what `ReverseDecode`
  does, for a tree stored at offset `startIndex` of a shared array.
- The range decoder is seen only through `DecodeBit(probs, index)`.
  - How it decides a bit and adapts the probability are the two functions of a
    `RangeDecoder.Coder`. Everything proved here therefore holds for every
    range decoder behaviour.
  - `Decoder` keeps a ghost log `Probed` of the indices it was called with. The
    contracts use it to say which models each method probes, in which order.
- All three loops are proved against one specification function,
  `TreeWalk.Walk`. It describes one complete walk down the tree as a value: the
  bits read, the models, the decoder state, and the probe log.
- `BitStrings` says what those bits mean: the node index, the big-endian and
  little-endian readings, and the path of probed nodes.
- `JavaInt` models the Java `int` operations the loops use:
  - `1 << n` with the shift count masked to five bits;
  - `|` on non-negative values;
  - `x << i`.

All line references are to
`extras/lzma/src/main/java/com/sun/grizzly/lzma/compression/rangecoder/BitTreeDecoder.java`.

## Model

| member | source | states |
|---|---|---|
| BitTree.BitTreeDecoder.constructor | extras/lzma/src/main/java/com/sun/grizzly/lzma/compression/rangecoder/BitTreeDecoder.java:51-54 | for a width `n` in 0..30, `Models` is a fresh array of exactly 2^n models, all 0, and `NumBitLevels == n` |
| BitTree.BitTreeDecoder.Decode | extras/lzma/src/main/java/com/sun/grizzly/lzma/compression/rangecoder/BitTreeDecoder.java:60-66 | the result is the walk's bits read most significant first (`m - (1 << n)`), in `[0, 2^n)`; the models, decoder state and probe log end as the walk leaves them; exactly `n` probes were added, each in `[1, 2^n)` |
| BitTree.BitTreeDecoder.ReverseDecode | extras/lzma/src/main/java/com/sun/grizzly/lzma/compression/rangecoder/BitTreeDecoder.java:68-78 | the result is the bits of the same walk `Decode` makes, read least significant first (`symbol \|= bit << bitIndex`), in `[0, 2^n)`; models, decoder state and probe log as the walk leaves them; exactly `n` probes were added, each in `[1, 2^n)` |
| BitTree.BitTreeDecoder.ReverseDecodeAt | extras/lzma/src/main/java/com/sun/grizzly/lzma/compression/rangecoder/BitTreeDecoder.java:80-91 | the same, for the tree at offset `startIndex` and the walk of `max(n, 0)` levels; the loop runs `n` times for `n >= 0` and not at all otherwise, so exactly `max(n, 0)` probes are added, each in `(startIndex, startIndex + 2^max(n, 0))`, and a width `n <= 0` returns 0; no model outside that window changes |
| BitTree.DecodersAgree | extras/lzma/src/main/java/com/sun/grizzly/lzma/compression/rangecoder/BitTreeDecoder.java:60-78 | with equal models and decoders, `Decode` and `ReverseDecode` probe the same indices in the same order and leave equal models and decoder states; each result is the `n`-bit reversal of the other |
| BitTree.ReverseDecodersAgree | extras/lzma/src/main/java/com/sun/grizzly/lzma/compression/rangecoder/BitTreeDecoder.java:68-91 | the static method at offset `startIndex` and a tree owning that window return the same symbol; each shared-array probe is the own-array probe plus `startIndex`; the window ends equal to the tree's array; nothing outside the window changes; at offset 0 they agree outright |
| RangeDecoder.Decoder.DecodeBit | extras/lzma/src/main/java/com/sun/grizzly/lzma/compression/rangecoder/BitTreeDecoder.java:72 | the bit and next state are the coder's decision on `probs[index]`; only that model is adapted; the index is appended to the probe log |
| JavaInt.ShiftLeftOneExact | extras/lzma/src/main/java/com/sun/grizzly/lzma/compression/rangecoder/BitTreeDecoder.java:53 | Java's `1 << n` equals 2^n exactly when `n <= 30` |
| JavaInt.ShiftLeftOne | extras/lzma/src/main/java/com/sun/grizzly/lzma/compression/rangecoder/BitTreeDecoder.java:65 | `1 << n` is always a Java `int` |
| JavaInt.ShiftLeft | extras/lzma/src/main/java/com/sun/grizzly/lzma/compression/rangecoder/BitTreeDecoder.java:75 | `bit << i` is 0 for bit 0 and 2^i for bit 1 |
| JavaInt.Or | extras/lzma/src/main/java/com/sun/grizzly/lzma/compression/rangecoder/BitTreeDecoder.java:75 | Java's `a \| b` on non-negative ints is at least each operand and at most their sum |
| JavaInt.OrBitAt | extras/lzma/src/main/java/com/sun/grizzly/lzma/compression/rangecoder/BitTreeDecoder.java:75 | `\|` is bitwise: bit `i` of `a \| b` is set exactly when bit `i` of `a` or of `b` is set |
| JavaInt.OrDisjoint | extras/lzma/src/main/java/com/sun/grizzly/lzma/compression/rangecoder/BitTreeDecoder.java:75 | OR-ing in a bit above every set bit of `x < 2^i` is addition |
| BitStrings.Node | extras/lzma/src/main/java/com/sun/grizzly/lzma/compression/rangecoder/BitTreeDecoder.java:63 | after `k` bits the loop variable `m` is in row `k` of the tree: `2^k <= m < 2^(k+1)` |
| BitStrings.BigEndian | extras/lzma/src/main/java/com/sun/grizzly/lzma/compression/rangecoder/BitTreeDecoder.java:65 | `k` bits read most significant first are below 2^k |
| BitStrings.LittleEndian | extras/lzma/src/main/java/com/sun/grizzly/lzma/compression/rangecoder/BitTreeDecoder.java:75 | `k` bits read least significant first are below 2^k |
| BitStrings.Path | extras/lzma/src/main/java/com/sun/grizzly/lzma/compression/rangecoder/BitTreeDecoder.java:72 | reading `k` bits makes exactly `k` probes |
| BitStrings.LittleEndianStep | extras/lzma/src/main/java/com/sun/grizzly/lzma/compression/rangecoder/BitTreeDecoder.java:75 | the `k`-th bit read enters the little-endian symbol with weight `bit << k` |
| BitStrings.AccumulateBit | extras/lzma/src/main/java/com/sun/grizzly/lzma/compression/rangecoder/BitTreeDecoder.java:75 | `symbol \|= bit << bitIndex` turns the symbol of the bits read so far into the symbol of those bits plus `bit` |
| BitStrings.NodeIsSentinelPlusBigEndian | extras/lzma/src/main/java/com/sun/grizzly/lzma/compression/rangecoder/BitTreeDecoder.java:61-65 | after reading `bits`, `m == 2^k + BigEndian(bits)`: the leading 1 is a sentinel above the bits read |
| BitStrings.LoopValuesFitInt | extras/lzma/src/main/java/com/sun/grizzly/lzma/compression/rangecoder/BitTreeDecoder.java:61-76 | in a tree of at most 30 levels, `m` and both symbol readings always fit a Java `int`, so the loops never overflow |
| BitStrings.StripSentinel | extras/lzma/src/main/java/com/sun/grizzly/lzma/compression/rangecoder/BitTreeDecoder.java:65 | for `n <= 30`, `m - (1 << n)` is the bits read, most significant first, below 2^n |
| BitStrings.PathAt | extras/lzma/src/main/java/com/sun/grizzly/lzma/compression/rangecoder/BitTreeDecoder.java:85 | the `j`-th probe is at `start` plus the node of the first `j` bits, in row `j` of the tree |
| BitStrings.PathWithinTree | extras/lzma/src/main/java/com/sun/grizzly/lzma/compression/rangecoder/BitTreeDecoder.java:85 | every probe lies in `[start + 1, start + 2^k)` |
| BitStrings.ReverseOfDecodeSymbol | extras/lzma/src/main/java/com/sun/grizzly/lzma/compression/rangecoder/BitTreeDecoder.java:60-78 | for the same bits, the `ReverseDecode` symbol is the `k`-bit reversal of the `Decode` symbol |
| BitStrings.DecodeOfReverseSymbol | extras/lzma/src/main/java/com/sun/grizzly/lzma/compression/rangecoder/BitTreeDecoder.java:60-78 | and the `Decode` symbol is the `k`-bit reversal of the `ReverseDecode` symbol |
| BitStrings.BigEndianBitAt | extras/lzma/src/main/java/com/sun/grizzly/lzma/compression/rangecoder/BitTreeDecoder.java:60-66 | bit `k - 1 - i` of the `Decode` symbol is the `i`-th bit read |
| BitStrings.LittleEndianBitAt | extras/lzma/src/main/java/com/sun/grizzly/lzma/compression/rangecoder/BitTreeDecoder.java:68-78 | bit `i` of the `ReverseDecode` symbol is the `i`-th bit read |
| BitStrings.BigEndianOfEncode | extras/lzma/src/main/java/com/sun/grizzly/lzma/compression/rangecoder/BitTreeDecoder.java:60-66 | every symbol below 2^n is what `Decode` returns for the bits an encoder emits for it |
| BitStrings.EncodeOfBigEndian | extras/lzma/src/main/java/com/sun/grizzly/lzma/compression/rangecoder/BitTreeDecoder.java:60-66 | and those are the only `n` bits that decode to it |
| BitStrings.LittleEndianOfEncode | extras/lzma/src/main/java/com/sun/grizzly/lzma/compression/rangecoder/BitTreeDecoder.java:68-78 | the same round trip for `ReverseDecode` and the least-significant-first encoding |
| BitStrings.EncodeOfLittleEndian | extras/lzma/src/main/java/com/sun/grizzly/lzma/compression/rangecoder/BitTreeDecoder.java:68-78 | in the other direction |
| TreeWalk.Begin | extras/lzma/src/main/java/com/sun/grizzly/lzma/compression/rangecoder/BitTreeDecoder.java:61 | a walk starts at node 1, the node of the empty bit string |
| TreeWalk.Step | extras/lzma/src/main/java/com/sun/grizzly/lzma/compression/rangecoder/BitTreeDecoder.java:63 | one iteration reads exactly one bit and keeps the number of models |
| TreeWalk.Walk | extras/lzma/src/main/java/com/sun/grizzly/lzma/compression/rangecoder/BitTreeDecoder.java:62-64 | a walk never changes the number of models |
| TreeWalk.NodeInTree | extras/lzma/src/main/java/com/sun/grizzly/lzma/compression/rangecoder/BitTreeDecoder.java:85 | while bits remain, the probed index `start + m` lies strictly inside the tree, so inside the array |
| TreeWalk.WalkLength | extras/lzma/src/main/java/com/sun/grizzly/lzma/compression/rangecoder/BitTreeDecoder.java:62 | a walk down a tree that fits reads exactly `n` bits |
| TreeWalk.WalkProbes | extras/lzma/src/main/java/com/sun/grizzly/lzma/compression/rangecoder/BitTreeDecoder.java:63 | a walk probes exactly the nodes of the path its bits select, in order |
| TreeWalk.WalkFrame | extras/lzma/src/main/java/com/sun/grizzly/lzma/compression/rangecoder/BitTreeDecoder.java:80-91 | a walk changes no model outside `(start, start + 2^n)` |
| TreeWalk.WalkFromRoot | extras/lzma/src/main/java/com/sun/grizzly/lzma/compression/rangecoder/BitTreeDecoder.java:60-91 | a whole walk reads `n` bits and calls `DecodeBit` exactly `n` times, on its path, in order; every probe is inside the tree; no model outside it changes |
| TreeWalk.WindowedWalk | extras/lzma/src/main/java/com/sun/grizzly/lzma/compression/rangecoder/BitTreeDecoder.java:68-91 | a walk at offset `start` against the walk of the tree owning the window: same bits and state, the window ends as the own array, nothing outside changes, each probe shifted by `start` |
| TreeWalk.ShiftedPath | extras/lzma/src/main/java/com/sun/grizzly/lzma/compression/rangecoder/BitTreeDecoder.java:85 | the probes at offset `start` are the probes at offset 0 plus `start` |


### Proof support

These lemmas are the single steps the loop proofs are built from. Each describes one iteration of a loop, or one step of a walk, in the form the proofs need:

- `BitStrings.NodeLast`: the node is twice the node of all but the last bit, plus the last bit.
- `BitStrings.LittleEndianLast`: the last bit read is the most significant bit of the little-endian symbol.
- `BitStrings.NodePrefix`: the value `m` has after `j` iterations is the node of the first `j` bits.
- `BitStrings.LittleEndianPrefix`: the value `symbol` has after `j` iterations is the little-endian reading of the first `j` bits.
- `BitStrings.PathStep`: reading one more bit adds one probe, at `start` plus the current node.
- `BitStrings.NodeStep`: reading bit `b` moves `m` to `(m << 1) + b`, the node of the longer bit string.
- `TreeWalk.WalkStep`: a walk is one step followed by the rest of the walk, and the step stays on the path.
- `TreeWalk.Advance`: after one `DecodeBit` call, the loop's new `m`, bits, models, state and log are the next step of the same walk.
- `TreeWalk.StepInWindow`: one step at offset `start` in a shared array equals the same step in the window taken as its own array.
- `TreeWalk.WalkInWindow`: so do whole walks: same bits and state, and the window ends as the own array does.

## Left out

- `Init` (lines 56-58) is not modelled. It calls `Decoder.InitBitModels`, and the range decoder's source, `Decoder.java`, is not part of this model.
- `DecodeBit`'s own arithmetic is not modelled. Its range/code update, the stream bytes it reads and its probability adaptation are the `decide` and `adapt` functions of `RangeDecoder.Coder`, taken as parameters. `CoderState` stands for the decoder's registers and stream position.
- `java.io.IOException` from `DecodeBit` is not modelled: reading the compressed stream is I/O, and the model has no failing stream.
- BitTree.BitTreeDecoder.constructor: requires `0 <= numBitLevels <= 30`, the widths for which Java's `1 << numBitLevels` is 2^n (`ShiftLeftOneExact`). Java masks the shift count to `numBitLevels & 31`. For a width with `numBitLevels & 31 == 31` (-1, 31, 63, -33, ...), `1 << numBitLevels` is negative and `new short[...]` throws. Every other width outside 0..30 (-2, -32, 32, 40, ...) constructs successfully, with `NumBitLevels == numBitLevels` but only 2^(numBitLevels & 31) models. The model does not capture such objects, nor what the decoders then do. `Decode` makes `numBitLevels & 31` probes and then throws `ArrayIndexOutOfBoundsException`; for a negative width this is because its `bitIndex != 0` loop would otherwise count down through about 2^32 values. `ReverseDecode` returns 0 at once for a negative width, and for a width of 32 or more it throws after the same number of probes.
- BitTree.BitTreeDecoder.ReverseDecodeAt: requires a width of at most 30, and requires the whole tree at `startIndex` to fit in the array. Java throws `ArrayIndexOutOfBoundsException` only if the path actually walked leaves the array, and for wider widths `bit << bitIndex` wraps around. Neither behaviour is modelled. A `startIndex` of -1 is accepted, since every probed index is then still non-negative.
- `Models` and `NumBitLevels` are `const` here. The Java fields are not `final`, but nothing in the class writes them after the constructor.
- The arithmetic of the Java `short` probabilities is not modelled beyond their range (`Prob`), because it happens inside `DecodeBit`.
- The ghost probe log `Decoder.Probed` has no counterpart in the source. It only records the indices passed to `DecodeBit`.
- `TCPNIOConnectorHandler` and `DefaultThreadPool` are not part of this model: they are unrelated to the decoder.
