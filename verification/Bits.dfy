/**
  Bit-level arithmetic on natural numbers.

  C integers are modelled as `int` values with an explicit modulus.  The bitwise
  operators that matter to the protocols (`<<` and `|` on unsigned words) are
  defined here on the binary expansion, so that "or-ing in" a digit or a flag is
  stated as the source writes it and only then shown to be an addition.
*/
module Bits {

  const U32: int := 0x1_0000_0000
  const U64: int := 0x1_0000_0000_0000_0000

  /** Truncation to `uint32_t` and to `uint64_t`. */
  function Word32(x: int): (w: nat)
    ensures w < U32
    ensures 0 <= x < U32 ==> w == x
  {
    x % 0x1_0000_0000
  }

  function Word64(x: int): (w: nat)
    ensures w < U64
    ensures 0 <= x < U64 ==> w == x
  {
    x % 0x1_0000_0000_0000_0000
  }

  /** Truncation to `int64_t`. */
  function Int64(x: int): (i: int)
    ensures -0x8000_0000_0000_0000 <= i < 0x8000_0000_0000_0000
    ensures -0x8000_0000_0000_0000 <= x < 0x8000_0000_0000_0000 ==> i == x
  {
    (x + 0x8000_0000_0000_0000) % 0x1_0000_0000_0000_0000 - 0x8000_0000_0000_0000
  }

  type byte = b: int | 0 <= b < 256

  /** A text of ASCII characters as bytes. */
  function Ascii(s: string): (b: seq<byte>)
    requires forall k :: 0 <= k < |s| ==> s[k] as int < 128
  {
    seq(|s|, k requires 0 <= k < |s| => s[k] as int)
  }

  function Pow2(n: nat): (p: nat)
    ensures p >= 1
  {
    if n == 0 then 1 else 2 * Pow2(n - 1)
  }

  /** Bit `k` of `x`. */
  predicate TestBit(x: nat, k: nat) {
    if k == 0 then x % 2 == 1 else TestBit(x / 2, k - 1)
  }

  /** Bitwise or. */
  function BitOr(x: nat, y: nat): nat {
    if x == 0 then y
    else if y == 0 then x
    else (if x % 2 == 1 || y % 2 == 1 then 1 else 0) + 2 * BitOr(x / 2, y / 2)
  }

  /** `n` without its `k` low bits. */
  function Shr(n: nat, k: nat): nat {
    if k == 0 then n else Shr(n, k - 1) / 2
  }

  /** Left shift in a word of `2^width == m` values: the bits pushed out are lost. */
  function ShiftLeft(x: nat, n: nat, m: nat): nat
    requires m > 0
  {
    x * Pow2(n) % m
  }

  lemma Pow2Values()
    ensures Pow2(7) == 128 && Pow2(31) == 0x8000_0000 && Pow2(32) == U32
    ensures Pow2(63) == 0x8000_0000_0000_0000 && Pow2(64) == U64
  {
    assert Pow2(8) == 256;
    Pow2Add(8, 8);
    Pow2Add(16, 8);
    Pow2Add(24, 7);
    Pow2Add(31, 1);
    Pow2Add(31, 32);
    Pow2Add(32, 32);
  }

  lemma {:induction false} Pow2Add(a: nat, b: nat)
    ensures Pow2(a + b) == Pow2(a) * Pow2(b)
  {
    if b == 0 {
    } else {
      Pow2Add(a, b - 1);
      assert Pow2(a + b) == 2 * Pow2(a + b - 1);
      assert Pow2(b) == 2 * Pow2(b - 1);
    }
  }

  lemma {:induction false} Pow2Monotone(a: nat, b: nat)
    requires a <= b
    ensures Pow2(a) <= Pow2(b)
  {
    if a < b {
      Pow2Monotone(a, b - 1);
    }
  }

  /** Or-ing in a multiple of `2^n` above a value below `2^n` adds it. */
  lemma {:induction false} OrIsAdd(x: nat, y: nat, n: nat)
    requires x < Pow2(n)
    ensures BitOr(x, y * Pow2(n)) == x + y * Pow2(n)
  {
    if x != 0 && y != 0 {
      assert n > 0;
      var z := y * Pow2(n - 1);
      assert y * Pow2(n) == 2 * z;
      assert z > 0;
      OrIsAdd(x / 2, y, n - 1);
      assert BitOr(x, 2 * z) == x % 2 + 2 * BitOr(x / 2, z);
    } else if y == 0 {
      assert y * Pow2(n) == 0;
    }
  }

  lemma {:induction false} OrCommutes(x: nat, y: nat)
    ensures BitOr(x, y) == BitOr(y, x)
    decreases x + y
  {
    if x != 0 && y != 0 {
      OrCommutes(x / 2, y / 2);
    }
  }

  /** Or-ing a value below `2^n` into a multiple of it. */
  lemma OrLow(x: nat, y: nat, n: nat)
    requires y < Pow2(n)
    ensures BitOr(x * Pow2(n), y) == x * Pow2(n) + y
  {
    OrIsAdd(y, x, n);
    OrCommutes(x * Pow2(n), y);
  }

  /** Shifting into a `2^m` word keeps the low `m - n` bits of the operand. */
  lemma ShiftLeftKeeps(x: nat, n: nat, m: nat)
    requires n <= m
    ensures ShiftLeft(x, n, Pow2(m)) == x % Pow2(m - n) * Pow2(n)
  {
    Pow2Add(m - n, n);
    ScaledMod(x, Pow2(n), Pow2(m - n));
  }

  lemma ScaledMod(x: nat, a: nat, b: nat)
    requires a > 0 && b > 0
    ensures b * a > 0 && x * a % (b * a) == x % b * a
  {
    var q, r := x / b, x % b;
    MulBelow(r, b, a);
    assert (q * b + r) * a == q * (b * a) + r * a by { MulDistribute(q, b, r, a); }
    ModUnique(x * a, b * a, q, r * a);
  }

  lemma MulDistribute(q: int, b: int, r: int, a: int)
    ensures (q * b + r) * a == q * (b * a) + r * a
  {
    assert (q * b + r) * a == q * b * a + r * a;
    assert q * b * a == q * (b * a);
  }

  lemma MulBelow(r: int, b: int, a: int)
    requires 0 <= r < b && a > 0
    ensures 0 <= r * a < b * a
  {
  }

  lemma ModUnique(x: int, m: int, q: int, r: int)
    requires m > 0 && 0 <= r < m && x == q * m + r
    ensures x % m == r && x / m == q
  {
    var q', r' := x / m, x % m;
    assert x == q' * m + r';
    assert (q' - q) * m == r - r';
    if q' > q {
      MulAtLeast(q' - q, m);
    } else if q' < q {
      MulAtLeast(q - q', m);
    }
  }

  lemma AddMultiple(x: int, k: int, m: int)
    requires m > 0
    ensures (x + k * m) % m == x % m
  {
    MulDistribute(x / m + k, m, x % m, 1);
    ModUnique(x + k * m, m, x / m + k, x % m);
  }

  lemma MulAtMost(a: int, b: int, c: nat)
    requires a <= b
    ensures a * c <= b * c
  {
  }

  lemma MulAtLeast(k: int, m: int)
    requires k >= 1 && m >= 0
    ensures k * m >= m
  {
  }

  // ----- flag words -----

  lemma {:induction false} TestBitOr(x: nat, y: nat, k: nat)
    ensures TestBit(BitOr(x, y), k) <==> TestBit(x, k) || TestBit(y, k)
  {
    if x == 0 || y == 0 {
      ZeroHasNoBits(k);
    } else {
      var low := if x % 2 == 1 || y % 2 == 1 then 1 else 0;
      var z := BitOr(x / 2, y / 2);
      HalfOf(low, z);
      if k > 0 {
        TestBitOr(x / 2, y / 2, k - 1);
      }
    }
  }

  lemma HalfOf(low: nat, z: nat)
    requires low < 2
    ensures (low + 2 * z) / 2 == z && (low + 2 * z) % 2 == low
  {
  }

  lemma {:induction false} ZeroHasNoBits(k: nat)
    ensures !TestBit(0, k)
  {
    if k > 0 {
      ZeroHasNoBits(k - 1);
    }
  }

  lemma {:induction false} TestBitPow2(j: nat, k: nat)
    ensures TestBit(Pow2(j), k) <==> j == k
  {
    if k == 0 {
    } else if j == 0 {
      ZeroHasNoBits(k - 1);
    } else {
      assert Pow2(j) / 2 == Pow2(j - 1);
      TestBitPow2(j - 1, k - 1);
    }
  }

  lemma {:induction false} BitOrBelow(x: nat, y: nat, n: nat)
    requires x < Pow2(n) && y < Pow2(n)
    ensures BitOr(x, y) < Pow2(n)
  {
    if x != 0 && y != 0 {
      assert n > 0;
      BitOrBelow(x / 2, y / 2, n - 1);
    }
  }

  /** The low `n` bits of `x` are all set. */
  ghost predicate LowBitsSet(x: nat, n: nat) {
    forall k: nat | k < n :: TestBit(x, k)
  }

  /** An `n`-bit word equals `2^n - 1` exactly when all of its bits are set. */
  lemma {:induction false} AllOnes(x: nat, n: nat)
    requires x < Pow2(n)
    ensures x == Pow2(n) - 1 <==> LowBitsSet(x, n)
  {
    if n > 0 {
      var h := x / 2;
      AllOnes(h, n - 1);
      if LowBitsSet(x, n) {
        assert TestBit(x, 0);
        forall k: nat | k < n - 1 ensures TestBit(h, k) {
          assert TestBit(x, k + 1);
        }
      }
      if x % 2 == 1 && LowBitsSet(h, n - 1) {
        forall k: nat | k < n ensures TestBit(x, k) {
          if k > 0 {
            var j: nat := k - 1;
            assert TestBit(h, j);
          }
        }
      }
    }
  }
}
