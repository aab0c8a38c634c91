/**
 * Machine-integer arithmetic shared by the rings and the hash table:
 * 32-bit `unsigned` wrap-around, powers of two, and the `h & (n - 1)`
 * bucket/slot mask.
 */
module Bits {

  /** 2^32: the number of values of a C++ `unsigned`. */
  const WORD: int := 0x1_0000_0000

  /** A C++ `unsigned` (32 bits). */
  type u32 = x: int | 0 <= x < WORD

  /** A C++ `u8`. */
  type u8 = x: int | 0 <= x < 0x100

  /** A C++ `u16`. */
  type u16 = x: int | 0 <= x < 0x1_0000

  /** Reduction modulo 2^32, what storing an integer into an `unsigned` does. */
  function Wrap(x: int): u32 {
    x % WORD
  }

  /** `a - b` on `unsigned`: the distance from `b` forward to `a`. */
  function Sub32(a: u32, b: u32): (r: u32)
    ensures Wrap(b + r) == a
    ensures b <= a ==> r == a - b
  {
    Wrap(a - b)
  }

  /** `a + 1` on `unsigned`. */
  function Inc32(a: u32): (r: u32)
    ensures Sub32(r, a) == 1
    ensures r != a
  {
    Wrap(a + 1)
  }

  /** `x` reduced modulo 2^32, given the number of whole words to take off. */
  lemma WrapOf(x: int, q: int)
    requires 0 <= x - WORD * q < WORD
    ensures Wrap(x) == x - WORD * q
  {
    DivModUnique(x, WORD, q, x - WORD * q);
  }

  /** Advancing the end of a window that is not full widens it by one. */
  lemma WidenWindow(a: u32, b: u32)
    requires Sub32(a, b) < WORD - 1
    ensures Sub32(Inc32(a), b) == Sub32(a, b) + 1
  {
    if b <= a {
      WrapOf(a - b, 0);
      if a == WORD - 1 {
        WrapOf(a + 1, 1);
        WrapOf(0 - b, -1);
      } else {
        WrapOf(a + 1, 0);
        WrapOf(a + 1 - b, 0);
      }
    } else {
      WrapOf(a - b, -1);
      WrapOf(a + 1, 0);
      WrapOf(a + 1 - b, -1);
    }
  }

  /** Advancing the start of a non-empty window narrows it by one. */
  lemma NarrowWindow(a: u32, b: u32)
    requires Sub32(a, b) > 0
    ensures Sub32(a, Inc32(b)) == Sub32(a, b) - 1
  {
    if b < a {
      WrapOf(a - b, 0);
      WrapOf(b + 1, 0);
      WrapOf(a - b - 1, 0);
    } else {
      WrapOf(a - b, -1);
      if b == WORD - 1 {
        WrapOf(b + 1, 1);
        WrapOf(a - 0, 0);
      } else {
        WrapOf(b + 1, 0);
        WrapOf(a - b - 1, -1);
      }
    }
  }

  /** 1, 2, 4, 8, ... */
  predicate IsPowerOfTwo(n: nat)
    decreases n
  {
    if n <= 1 then n == 1 else n % 2 == 0 && IsPowerOfTwo(n / 2)
  }

  lemma {:induction false} MulAtLeast(m: int, d: int)
    requires 0 < m && 1 <= d
    ensures m * d >= m
  {
    if d > 1 {
      MulAtLeast(m, d - 1);
      assert m * d == m * (d - 1) + m;
    }
  }

  /** Euclidean division has exactly one quotient and remainder. */
  lemma DivModUnique(a: int, m: int, q: int, r: int)
    requires 0 < m && a == m * q + r && 0 <= r < m
    ensures a / m == q && a % m == r
  {
    var q', r' := a / m, a % m;
    assert a == m * q' + r';
    var d := q - q';
    assert m * d == r' - r by {
      assert m * q - m * q' == m * (q - q');
    }
    if d >= 1 {
      MulAtLeast(m, d);
    } else if d <= -1 {
      MulAtLeast(m, -d);
    }
  }

  /** A power of two divides every power of two that is at least as large. */
  lemma {:induction false} PowerOfTwoDivides(m: nat, n: nat) returns (c: nat)
    requires IsPowerOfTwo(m) && IsPowerOfTwo(n) && m <= n
    ensures n == m * c
    decreases m
  {
    if m == 1 {
      c := n;
    } else {
      var c' := PowerOfTwoDivides(m / 2, n / 2);
      c := c';
      calc {
        m * c;
        (2 * (m / 2)) * c';
        2 * ((m / 2) * c');
        2 * (n / 2);
        n;
      }
    }
  }

  lemma Doubling(n: nat)
    requires IsPowerOfTwo(n)
    ensures IsPowerOfTwo(2 * n)
  {
    assert (2 * n) / 2 == n;
  }

  lemma WordIsPowerOfTwo()
    ensures IsPowerOfTwo(WORD)
  {
    Doubling(1); Doubling(2); Doubling(4); Doubling(8);
    Doubling(0x10); Doubling(0x20); Doubling(0x40); Doubling(0x80);
    Doubling(0x100); Doubling(0x200); Doubling(0x400); Doubling(0x800);
    Doubling(0x1000); Doubling(0x2000); Doubling(0x4000); Doubling(0x8000);
    Doubling(0x1_0000); Doubling(0x2_0000); Doubling(0x4_0000); Doubling(0x8_0000);
    Doubling(0x10_0000); Doubling(0x20_0000); Doubling(0x40_0000); Doubling(0x80_0000);
    Doubling(0x100_0000); Doubling(0x200_0000); Doubling(0x400_0000); Doubling(0x800_0000);
    Doubling(0x1000_0000); Doubling(0x2000_0000); Doubling(0x4000_0000); Doubling(0x8000_0000);
  }

  /** Adding a multiple of `m` does not change the residue modulo `m`. */
  lemma ModMultipleAdd(m: int, t: int, y: int)
    requires 0 < m
    ensures (m * t + y) % m == y % m
  {
    var k := y / m;
    assert y == m * k + y % m;
    assert m * t + y == m * (t + k) + y % m by {
      assert m * t + m * k == m * (t + k);
    }
    DivModUnique(m * t + y, m, t + k, y % m);
  }

  /**
   * Reducing modulo 2^32 first does not change the residue modulo a power
   * of two no larger than 2^32: the reason a ring indexed by `idx % MaxSize`
   * with free-running `unsigned` indices stays consistent across the wrap.
   */
  lemma WrapKeepsResidue(x: int, m: nat)
    requires IsPowerOfTwo(m) && m <= WORD
    ensures Wrap(x) % m == x % m
  {
    var c := DividesWord(m);
    var q := x / WORD;
    assert x == WORD * q + Wrap(x);
    MulAssoc(m, c, q);
    ModMultipleAdd(m, c * q, Wrap(x));
  }

  lemma MulAssoc(a: int, b: int, c: int)
    ensures (a * b) * c == a * (b * c)
  {
  }

  /** Every power of two up to 2^32 divides 2^32. */
  lemma DividesWord(m: nat) returns (c: nat)
    requires IsPowerOfTwo(m) && m <= WORD
    ensures WORD == m * c
  {
    WordIsPowerOfTwo();
    c := PowerOfTwoDivides(m, WORD);
  }

  /** Bitwise `&` on non-negative integers, one binary digit at a time. */
  function BitAnd(a: nat, b: nat): nat
    decreases a
  {
    if a == 0 || b == 0 then 0
    else (a % 2) * (b % 2) + 2 * BitAnd(a / 2, b / 2)
  }

  /** Bitwise `^` on non-negative integers, one binary digit at a time. */
  function BitXor(a: nat, b: nat): nat
    decreases a + b
  {
    if a == 0 && b == 0 then 0
    else Digit(a, b) + 2 * BitXor(a / 2, b / 2)
  }

  /** The lowest binary digit of `a ^ b`. */
  function Digit(a: nat, b: nat): nat
  {
    if a % 2 == b % 2 then 0 else 1
  }

  /** The defining recurrence of `^`, including at zero. */
  lemma XorDigits(a: nat, b: nat)
    ensures BitXor(a, b) == Digit(a, b) + 2 * BitXor(a / 2, b / 2)
    ensures BitXor(a, b) % 2 == Digit(a, b) && BitXor(a, b) / 2 == BitXor(a / 2, b / 2)
  {
    var q := BitXor(a / 2, b / 2);
    if a == 0 && b == 0 {
      assert q == 0;
    }
    DivModUnique(BitXor(a, b), 2, q, Digit(a, b));
  }

  lemma {:induction false} XorCommutes(a: nat, b: nat)
    ensures BitXor(a, b) == BitXor(b, a)
    decreases a + b
  {
    if a != 0 || b != 0 {
      XorCommutes(a / 2, b / 2);
    }
  }

  lemma {:induction false} XorAssociates(a: nat, b: nat, c: nat)
    ensures BitXor(BitXor(a, b), c) == BitXor(a, BitXor(b, c))
    decreases a + b + c
  {
    if a != 0 || b != 0 || c != 0 {
      var x, y := BitXor(a, b), BitXor(b, c);
      XorDigits(a, b);
      XorDigits(b, c);
      XorDigits(x, c);
      XorDigits(a, y);
      XorAssociates(a / 2, b / 2, c / 2);
      calc {
        BitXor(x, c);
        Digit(x, c) + 2 * BitXor(x / 2, c / 2);
        Digit(a, y) + 2 * BitXor(a / 2, y / 2);
        BitXor(a, y);
      }
    }
  }

  /** `a ^ b` of two values below a power of two stays below it: XOR never widens. */
  lemma {:induction false} XorBelow(a: nat, b: nat, n: nat)
    requires IsPowerOfTwo(n) && a < n && b < n
    ensures BitXor(a, b) < n
    decreases n
  {
    if n > 1 {
      XorBelow(a / 2, b / 2, n / 2);
      XorDigits(a, b);
    }
  }

  /** `a & b` never exceeds `b`. */
  lemma {:induction false} BitAndBound(a: nat, b: nat)
    ensures BitAnd(a, b) <= b
    decreases a
  {
    if a != 0 && b != 0 {
      BitAndBound(a / 2, b / 2);
    }
  }

  /**
   * `h & (n - 1)` for a power of two `n`: the index the hash table and the
   * rings compute. It keeps the low bits of `h`, i.e. it is `h % n`.
   */
  function Mask(h: nat, n: nat): (r: nat)
    requires IsPowerOfTwo(n)
    ensures r == h % n && r < n
  {
    MaskIsMod(h, n);
    BitAnd(h, n - 1)
  }

  lemma {:induction false} MaskIsMod(h: nat, n: nat)
    requires IsPowerOfTwo(n)
    ensures BitAnd(h, n - 1) == h % n
    decreases n
  {
    if n > 1 && h != 0 {
      var k := n / 2;
      assert n == 2 * k;
      calc {
        BitAnd(h, n - 1);
        { assert (n - 1) % 2 == 1 && (n - 1) / 2 == k - 1;
          assert (h % 2) * ((n - 1) % 2) == h % 2; }
        h % 2 + 2 * BitAnd(h / 2, k - 1);
        { MaskIsMod(h / 2, k); }
        h % 2 + 2 * ((h / 2) % k);
        { HalvingMod(h, k); }
        h % (2 * k);
      }
    }
  }

  /** The residue modulo `2k` is the last binary digit plus twice the residue of `h / 2` modulo `k`. */
  lemma HalvingMod(h: nat, k: nat)
    requires 0 < k
    ensures h % (2 * k) == h % 2 + 2 * ((h / 2) % k)
  {
    var q, r := (h / 2) / k, (h / 2) % k;
    assert h / 2 == k * q + r;
    assert h == (2 * k) * q + (h % 2 + 2 * r) by {
      assert h == 2 * (h / 2) + h % 2;
      MulAssoc(2, k, q);
    }
    DivModUnique(h, 2 * k, q, h % 2 + 2 * r);
  }
}
