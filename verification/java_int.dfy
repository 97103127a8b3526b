/** The Java `int` operations the bit-tree decoder relies on, stated on unbounded
    integers: powers of two, `1 << n` with Java's 32-bit wrap-around and shift
    masking, bitwise OR of non-negative values, and extracting one bit. */
module JavaInt {

  /** 2^31: the first value a Java `int` cannot hold. */
  const Int32Limit: int := 0x8000_0000

  /** The widest tree whose size `1 << n` is still a positive Java `int`. */
  const MaxBitLevels: int := 30

  /** One decoded binary decision. */
  type Bit = b: int | 0 <= b <= 1

  function Pow2(n: nat): (p: nat)
    ensures 1 <= p
  {
    if n == 0 then 1 else 2 * Pow2(n - 1)
  }

  lemma {:induction false} Pow2Monotone(a: nat, b: nat)
    requires a <= b
    ensures Pow2(a) <= Pow2(b)
    ensures a < b ==> 2 * Pow2(a) <= Pow2(b)
  {
    if a < b {
      Pow2Monotone(a, b - 1);
    }
  }

  /** 2^31 is the bound of Java's `int`. */
  lemma Pow2Int32()
    ensures Pow2(31) == Int32Limit
  {
    assert Pow2(8) == 0x100;
    assert Pow2(16) == 0x1_0000;
    assert Pow2(24) == 0x100_0000;
  }

  /** Java's `1 << n` on `int`: the shift count is masked to its low five bits
      (`n & 31`, which is Euclidean `n % 32`), and `1 << 31` is the most negative
      `int`. */
  function ShiftLeftOne(n: int): (r: int)
    ensures -Int32Limit <= r < Int32Limit
  {
    var s := n % 32;
    if s == 31 then -Int32Limit
    else
      Pow2Int32();
      Pow2Monotone(s, 30);
      Pow2(s)
  }

  /** `1 << n` is the exact power 2^n precisely for the widths 0 .. 30.  Widths
      with `n % 32 == 31` give a negative array size; other widths above 30 wrap
      around to 2^(n % 32). */
  lemma ShiftLeftOneExact(n: nat)
    ensures ShiftLeftOne(n) == Pow2(n) <==> n <= MaxBitLevels
  {
    var s := n % 32;
    if n < 32 {
      assert s == n;
    } else {
      assert s < n;
      Pow2Monotone(s, n);
    }
  }

  /** Java's `a | b` on non-negative `int`s, one bit at a time from the least
      significant end. */
  function Or(a: nat, b: nat): (r: nat)
    ensures a <= r && b <= r && r <= a + b
    decreases a + b
  {
    if a == 0 then b
    else if b == 0 then a
    else 2 * Or(a / 2, b / 2) + (if a % 2 == 1 || b % 2 == 1 then 1 else 0)
  }

  /** Java's `x << i` for a non-negative `x` that does not overflow: `i`
      doublings.  Shifting a bit gives 0 or 2^i. */
  function ShiftLeft(x: nat, i: nat): (r: nat)
    ensures x == 0 ==> r == 0
    ensures x == 1 ==> r == Pow2(i)
  {
    if i == 0 then x else 2 * ShiftLeft(x, i - 1)
  }

  /** OR-ing in a bit above every bit already set is addition: this is why
      `symbol |= bit << i` accumulates the decoded bits. */
  lemma {:induction false} OrDisjoint(x: nat, i: nat, bit: Bit)
    requires x < Pow2(i)
    ensures Or(x, ShiftLeft(bit, i)) == x + ShiftLeft(bit, i)
  {
    if i > 0 && x > 0 && bit == 1 {
      OrDisjoint(x / 2, i - 1, bit);
    }
  }

  /** Bit `i` of `x`, that is `(x >> i) & 1`. */
  function BitAt(x: nat, i: nat): Bit
  {
    if i == 0 then x % 2 else BitAt(x / 2, i - 1)
  }

  /** Zero has no bit set. */
  lemma {:induction false} ZeroBitAt(i: nat)
    ensures BitAt(0, i) == 0
  {
    if i > 0 {
      ZeroBitAt(i - 1);
    }
  }

  /** `Or` is bitwise: bit `i` of `a | b` is set exactly when it is set in `a`
      or in `b`. */
  lemma {:induction false} OrBitAt(a: nat, b: nat, i: nat)
    ensures BitAt(Or(a, b), i) == if BitAt(a, i) == 1 || BitAt(b, i) == 1 then 1 else 0
  {
    if a == 0 || b == 0 {
      ZeroBitAt(i);
    } else if i > 0 {
      OrBitAt(a / 2, b / 2, i - 1);
    }
  }
}
