/** Bit extraction on Java `int` keys, as the binary trie does it:
    `(key & (1 << i)) >= 1 ? 1 : 0` for i = 31 down to 0.

    Java ints are 32-bit two's complement. For i <= 30, `1 << i` is the
    positive power 2^i and the test reads bit i of the key. For i = 31,
    `1 << 31` is the sign bit, -2^31, so `key & (1 << 31)` is 0 or -2^31 and
    never >= 1: bit 31 always reads 0. A key is therefore located by its low
    31 bits only, which `Canonical` extracts. */
module Bits {

  const TwoTo31: int := 0x8000_0000
  const TwoTo32: int := 0x1_0000_0000

  /** A Java `int`. */
  predicate IsInt32(k: int)
  {
    -TwoTo31 <= k < TwoTo31
  }

  function Pow2(n: nat): (r: nat)
    ensures r >= 1
  {
    if n == 0 then 1 else 2 * Pow2(n - 1)
  }

  /** u shifted right by i places, that is u / 2^i. */
  function Shr(u: nat, i: nat): (r: nat)
  {
    if i == 0 then u else Shr(u / 2, i - 1)
  }

  /** The bit of weight 2^i of a non-negative number. */
  function BitOf(u: nat, i: nat): (r: nat)
    ensures r < 2
  {
    Shr(u, i) % 2
  }

  /** The 32-bit pattern of a Java int, read as an unsigned number. */
  function Unsigned(k: int): (u: nat)
    requires IsInt32(k)
    ensures u < TwoTo32
    ensures k >= 0 ==> u == k
  {
    if k < 0 then k + TwoTo32 else k
  }

  /** Java's `1 << i` for 0 <= i <= 31: an int whose 32-bit pattern has
      bit i alone set. It is positive below bit 31 and is the most negative
      int at bit 31. */
  function Mask(i: nat): (m: int)
    requires i <= 31
    ensures IsInt32(m) && Unsigned(m) == Pow2(i)
    ensures m >= 1 <==> i < 31
  {
    Pow2Values();
    if i == 31 then -TwoTo31 else Pow2Mono(i, 30); Pow2(i)
  }

  /** Java's `key & (1 << i)`: the mask itself when bit i of the key is set,
      otherwise 0. It keeps at most bit i of the key, and it is positive
      exactly when that bit is set and is not the sign bit. */
  function AndMask(k: int, i: nat): (r: int)
    requires IsInt32(k) && i <= 31
    ensures IsInt32(r) && (r == 0 || Unsigned(r) == Pow2(i))
    ensures r >= 1 <==> i < 31 && BitOf(Unsigned(k), i) == 1
  {
    if BitOf(Unsigned(k), i) == 1 then Mask(i) else 0
  }

  /** `(key & (1 << i)) >= 1 ? 1 : 0`, the child index taken at bit i: bit i
      of the key's 32-bit pattern below bit 31, and always 0 at bit 31. */
  function CurrentBit(k: int, i: nat): (r: nat)
    requires IsInt32(k) && i <= 31
    ensures r < 2
    ensures r == 1 <==> i < 31 && BitOf(Unsigned(k), i) == 1
  {
    if AndMask(k, i) >= 1 then 1 else 0
  }

  /** The key's low 31 bits, the only ones the trie ever looks at: a
      negative key is read as k + 2^31. */
  function Canonical(k: int): (c: int)
    requires IsInt32(k)
    ensures 0 <= c < TwoTo31
    ensures 0 <= k ==> c == k
  {
    if k < 0 then k + TwoTo31 else k
  }

  /** The keys j and k take the same child at every bit b, b-1, ..., 0. */
  ghost predicate SamePathBelow(j: int, k: int, b: int)
    requires IsInt32(j) && IsInt32(k) && b <= 31
  {
    forall i: nat | i <= b :: CurrentBit(j, i) == CurrentBit(k, i)
  }

  lemma {:induction false} Pow2Add(a: nat, b: nat)
    ensures Pow2(a + b) == Pow2(a) * Pow2(b)
    decreases a
  {
    if a > 0 {
      Pow2Add(a - 1, b);
    }
  }

  lemma {:induction false} Pow2Mono(a: nat, b: nat)
    requires a <= b
    ensures Pow2(a) <= Pow2(b)
    decreases b
  {
    if a < b {
      Pow2Mono(a, b - 1);
    }
  }

  lemma Pow2Values()
    ensures Pow2(31) == TwoTo31 && Pow2(32) == TwoTo32
  {
    assert Pow2(4) == 16 by {
      assert Pow2(2) == 4;
    }
    Pow2Add(4, 4);
    Pow2Add(8, 8);
    Pow2Add(16, 16);
    assert Pow2(32) == 2 * Pow2(31);
  }

  /** Bit 31 always tests 0: `key & (1 << 31)` is 0 or negative. */
  lemma SignBitReadsZero(k: int)
    requires IsInt32(k)
    ensures CurrentBit(k, 31) == 0
  {
  }

  /** Adding 2^n to u adds 2^(n-i) to u shifted right by i <= n places. */
  lemma {:induction false} ShrAddPow2(u: nat, n: nat, i: nat)
    requires i <= n
    ensures Shr(u + Pow2(n), i) == Shr(u, i) + Pow2(n - i)
    decreases i
  {
    if i > 0 {
      assert (u + Pow2(n)) / 2 == u / 2 + Pow2(n - 1);
      ShrAddPow2(u / 2, n - 1, i - 1);
    }
  }

  /** A number below 2^n shifted right by n places is 0. */
  lemma {:induction false} ShrSmall(u: nat, n: nat)
    requires u < Pow2(n)
    ensures Shr(u, n) == 0
    decreases n
  {
    if n > 0 {
      ShrSmall(u / 2, n - 1);
    }
  }

  /** Adding 2^n leaves the bits below n unchanged. */
  lemma BitOfAddPow2(u: nat, n: nat, i: nat)
    requires i < n
    ensures BitOf(u + Pow2(n), i) == BitOf(u, i)
  {
    ShrAddPow2(u, n, i);
    assert Pow2(n - i) == 2 * Pow2(n - i - 1);
  }

  /** For u < 2^(b+1), bit b of u is set exactly when u >= 2^b. */
  lemma TopBit(u: nat, b: nat)
    requires u < Pow2(b + 1)
    ensures BitOf(u, b) == if u >= Pow2(b) then 1 else 0
  {
    if u >= Pow2(b) {
      ShrAddPow2(u - Pow2(b), b, b);
      ShrSmall(u - Pow2(b), b);
    } else {
      ShrSmall(u, b);
    }
  }

  /** Two numbers below 2^n with the same bits 0..n-1 are equal. */
  lemma {:induction false} BitsDetermine(j: nat, k: nat, n: nat)
    requires j < Pow2(n) && k < Pow2(n)
    requires forall i: nat | i < n :: BitOf(j, i) == BitOf(k, i)
    ensures j == k
    decreases n
  {
    if n > 0 {
      assert BitOf(j, 0) == BitOf(k, 0);
      forall i: nat | i < n - 1
        ensures BitOf(j / 2, i) == BitOf(k / 2, i)
      {
        assert BitOf(j, i + 1) == BitOf(k, i + 1);
      }
      BitsDetermine(j / 2, k / 2, n - 1);
    }
  }

  /** Below bit 31, the trie reads the bits of the canonical key. */
  lemma LowBit(k: int, i: nat)
    requires IsInt32(k) && i < 31
    ensures CurrentBit(k, i) == BitOf(Canonical(k), i)
  {
    Pow2Values();
    if k < 0 {
      BitOfAddPow2(Canonical(k), 31, i);
    }
  }

  /** Two keys take the same path through the trie iff they have the same
      canonical key: keys that differ only in the sign bit share a path. */
  lemma SamePathCanonical(j: int, k: int)
    requires IsInt32(j) && IsInt32(k)
    ensures SamePathBelow(j, k, 31) <==> Canonical(j) == Canonical(k)
  {
    Pow2Values();
    if SamePathBelow(j, k, 31) {
      forall i: nat | i < 31
        ensures BitOf(Canonical(j), i) == BitOf(Canonical(k), i)
      {
        LowBit(j, i);
        LowBit(k, i);
      }
      BitsDetermine(Canonical(j), Canonical(k), 31);
    }
    if Canonical(j) == Canonical(k) {
      forall i: nat | i <= 31
        ensures CurrentBit(j, i) == CurrentBit(k, i)
      {
        if i < 31 {
          LowBit(j, i);
          LowBit(k, i);
        }
      }
    }
  }
}
