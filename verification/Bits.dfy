/** Fixed-width integer arithmetic and the C bit operators, stated on unbounded integers. */
module Bits {

  type byte = x: nat | x < 0x100

  type u64 = x: nat | x < 0x1_0000_0000_0000_0000

  /** Truncation to `unsigned int`. */
  function U32(x: nat): nat {
    x % 0x1_0000_0000
  }

  /** Truncation to `uint64_t` and `size_t`. */
  function U64(x: nat): nat {
    x % 0x1_0000_0000_0000_0000
  }

  function Min(x: nat, y: nat): nat {
    if x < y then x else y
  }

  /** `data` stored over the bytes from `at` on. */
  function Overwrite(bytes: seq<byte>, at: nat, data: seq<byte>): (result: seq<byte>)
    requires at + |data| <= |bytes|
    ensures |result| == |bytes|
  {
    bytes[..at] + data + bytes[at + |data|..]
  }

  /** The least number of pieces of size `n` that cover `x`. */
  function CeilDiv(x: nat, n: nat): nat
    requires n > 0
  {
    (x + (n - 1)) / n
  }

  /** The C operator `&`. */
  function And(x: nat, y: nat): nat {
    if x == 0 || y == 0 then 0
    else 2 * And(x / 2, y / 2) + (if x % 2 == 1 && y % 2 == 1 then 1 else 0)
  }

  /** The C operator `|`. */
  function Or(x: nat, y: nat): nat {
    if x == 0 then y
    else if y == 0 then x
    else 2 * Or(x / 2, y / 2) + (if x % 2 == 1 || y % 2 == 1 then 1 else 0)
  }

  predicate PowerOfTwo(n: nat) {
    n == 1 || (n > 1 && n % 2 == 0 && PowerOfTwo(n / 2))
  }

  /** Masking with a power of two minus one takes the remainder. */
  lemma AndMask(x: nat, n: nat)
    requires PowerOfTwo(n)
    ensures And(x, n - 1) == x % n
  {
    var q, r := Quotient(x, n);
    AndMaskParts(x, q, r, n);
  }

  /** The mask takes the remainder of every value only if the size is a power of two. */
  lemma AndMaskExactly(n: nat)
    requires n > 0
    ensures (forall x: nat :: And(x, n - 1) == x % n) <==> PowerOfTwo(n)
  {
    hide And, PowerOfTwo;
    if PowerOfTwo(n) {
      forall x: nat
        ensures And(x, n - 1) == x % n
      {
        AndMask(x, n);
      }
    } else {
      SharedBit(n);
      assert And(n, n - 1) != n % n;
    }
  }

  /** A number that is not a power of two keeps its highest bit in its predecessor. */
  lemma {:induction false} SharedBit(n: nat)
    requires n > 0 && !PowerOfTwo(n)
    ensures And(n, n - 1) > 0
  {
    hide And;
    AndStep(n, n - 1);
    if n % 2 == 0 {
      SharedBit(n / 2);
      assert (n - 1) / 2 == n / 2 - 1;
    } else {
      AndStep(n / 2, n / 2);
      AndSelf(n / 2);
    }
  }

  lemma {:induction false} AndSelf(n: nat)
    ensures And(n, n) == n
  {
    if n > 0 {
      AndSelf(n / 2);
    }
  }

  lemma {:induction false} AndMaskParts(x: nat, q: nat, r: nat, n: nat)
    requires PowerOfTwo(n) && r < n && x == q * n + r
    ensures And(x, n - 1) == r
    decreases n
  {
    if n > 1 {
      Halve(x, q, r, n / 2);
      AndMaskParts(x / 2, q, r / 2, n / 2);
      AndStep(x, n - 1);
      assert (n - 1) / 2 == n / 2 - 1;
    }
  }

  /** Quotient and remainder are the only pair with these bounds. */
  lemma DivModUnique(x: int, n: nat, q: int, r: nat)
    requires n > 0 && r < n && x == q * n + r
    ensures x / n == q && x % n == r
  {
    var q', r' := x / n, x % n;
    assert x == q' * n + r';
    if q' < q {
      assert (q - q') * n >= n by { MulGrows(q - q', n); }
      assert false;
    } else if q' > q {
      assert (q' - q) * n >= n by { MulGrows(q' - q, n); }
      assert false;
    }
  }

  lemma Quotient(x: nat, n: nat) returns (q: nat, r: nat)
    requires n > 0
    ensures q == x / n && r == x % n && x == q * n + r && r < n
  {
    q, r := x / n, x % n;
  }

  lemma MulGrows(k: nat, n: nat)
    requires k > 0
    ensures k * n >= n
  {
    assert k * n == n + (k - 1) * n;
  }

  /** Two words split at the same place are combined part by part. */
  lemma {:induction false} AndSplit(x: nat, xh: nat, xl: nat, y: nat, yh: nat, yl: nat, n: nat)
    requires PowerOfTwo(n) && xl < n && yl < n
    requires x == xh * n + xl && y == yh * n + yl
    ensures And(x, y) == And(xh, yh) * n + And(xl, yl)
    decreases n
  {
    if n > 1 {
      Halve(x, xh, xl, n / 2);
      Halve(y, yh, yl, n / 2);
      AndSplit(x / 2, xh, xl / 2, y / 2, yh, yl / 2, n / 2);
      AndStep(x, y);
      AndStep(xl, yl);
      var carry := if xl % 2 == 1 && yl % 2 == 1 then 1 else 0;
      CarryParts(And(x, y), And(xl, yl), And(xh, yh), And(xl / 2, yl / 2), carry, n / 2, n);
    }
  }

  lemma Halve(x: nat, xh: nat, xl: nat, m: nat)
    requires x == xh * (2 * m) + xl
    ensures x / 2 == xh * m + xl / 2 && x % 2 == xl % 2
  {
    assert x == 2 * (xh * m + xl / 2) + xl % 2;
  }

  lemma CarryParts(whole: nat, part: nat, h: nat, l: nat, carry: nat, m: nat, n: nat)
    requires whole == 2 * (h * m + l) + carry && part == 2 * l + carry && n == 2 * m
    ensures whole == h * n + part
  {
  }

  lemma AndStep(x: nat, y: nat)
    ensures And(x, y) == 2 * And(x / 2, y / 2) + (if x % 2 == 1 && y % 2 == 1 then 1 else 0)
  {
  }

  lemma DivDiv(x: nat, a: nat, b: nat)
    requires a > 0 && b > 0
    ensures a * b > 0 && x / a / b == x / (a * b)
  {
    var p, r := Quotient(x, a);
    var q, s := Quotient(p, b);
    MulGrows(a, b);
    DivDivParts(x, a, b, a * b, p, r, q, s);
  }

  lemma DivDivParts(x: nat, a: nat, b: nat, ab: nat, p: nat, r: nat, q: nat, s: nat)
    requires a > 0 && b > 0 && ab == a * b
    requires x == p * a + r && r < a && p == q * b + s && s < b
    ensures x / ab == q
  {
    assert p * a == q * ab + s * a;
    MulMonotone(s + 1, b, a);
    DivModUnique(x, ab, q, s * a + r);
  }

  lemma {:induction false} OrBound(x: nat, y: nat, n: nat)
    requires PowerOfTwo(n) && x < n && y < n
    ensures Or(x, y) < n
    decreases n
  {
    if x > 0 && y > 0 {
      OrBound(x / 2, y / 2, n / 2);
    }
  }

  /** Two words split at the same place are joined part by part. */
  lemma {:induction false} OrSplit(x: nat, xh: nat, xl: nat, y: nat, yh: nat, yl: nat, n: nat)
    requires PowerOfTwo(n) && xl < n && yl < n
    requires x == xh * n + xl && y == yh * n + yl
    ensures Or(x, y) == Or(xh, yh) * n + Or(xl, yl)
    decreases n
  {
    if n > 1 {
      Halve(x, xh, xl, n / 2);
      Halve(y, yh, yl, n / 2);
      OrSplit(x / 2, xh, xl / 2, y / 2, yh, yl / 2, n / 2);
      OrStep(x, y);
      OrStep(xl, yl);
      var carry := if xl % 2 == 1 || yl % 2 == 1 then 1 else 0;
      CarryParts(Or(x, y), Or(xl, yl), Or(xh, yh), Or(xl / 2, yl / 2), carry, n / 2, n);
    }
  }

  lemma OrStep(x: nat, y: nat)
    ensures Or(x, y) == 2 * Or(x / 2, y / 2) + (if x % 2 == 1 || y % 2 == 1 then 1 else 0)
  {
  }

  /** Joining a word whose low part is clear with a value that fits in the low part is addition. */
  lemma OrDisjoint(high: nat, low: nat, n: nat)
    requires PowerOfTwo(n) && low < n
    ensures Or(low, high * n) == low + high * n
  {
    OrSplit(low, 0, low, high * n, high, 0, n);
  }

  /** In a word of `n * w` values, `x & ~(n - 1)` drops the remainder. */
  lemma AndClearsLowBits(x: nat, mask: nat, n: nat, w: nat)
    requires PowerOfTwo(n) && PowerOfTwo(w) && x < n * w && mask == (w - 1) * n
    ensures And(x, mask) == x - x % n
  {
    hide And, PowerOfTwo;
    assert n > 0 && w > 0 by { PowerPositive(n); PowerPositive(w); }
    var q, r := Quotient(x, n);
    QuotientBound(q, r, n, w);
    ClearLowPart(x, q, r, mask, n, w);
  }

  lemma PowerPositive(n: nat)
    requires PowerOfTwo(n)
    ensures n > 0
  {
  }

  lemma ClearLowPart(x: nat, q: nat, r: nat, mask: nat, n: nat, w: nat)
    requires PowerOfTwo(n) && PowerOfTwo(w) && r < n
    requires x == q * n + r && q % w == q && mask == (w - 1) * n
    ensures And(x, mask) == x - r
  {
    AndMask(q, w);
    AndSplit(x, q, r, mask, w - 1, 0, n);
  }

  lemma QuotientBound(q: nat, r: nat, n: nat, w: nat)
    requires q * n + r < n * w
    ensures q < w && q % w == q
  {
    if q >= w {
      MulMonotone(w, q, n);
      assert false;
    }
    DivModUnique(q, w, 0, q);
  }

  lemma MulMonotone(a: nat, b: nat, n: nat)
    requires a <= b
    ensures a * n <= b * n
  {
    assert b * n == a * n + (b - a) * n;
  }

  lemma {:induction false} PowerOfTwoProduct(m: nat, n: nat)
    requires PowerOfTwo(m) && PowerOfTwo(n)
    ensures PowerOfTwo(m * n)
    decreases m
  {
    if m > 1 {
      PowerOfTwoProduct(m / 2, n);
      assert m * n == 2 * (m / 2 * n);
    }
  }

  lemma PowerOfTwo64()
    ensures PowerOfTwo(0x80_0000_0000_0000)
  {
    assert PowerOfTwo(0x800);
    PowerOfTwoProduct(0x800, 0x800);
    PowerOfTwoProduct(0x40_0000, 0x800);
    PowerOfTwoProduct(0x2_0000_0000, 0x800);
    PowerOfTwoProduct(0x1000_0000_0000, 0x800);
  }

  lemma QuotientLess(x: nat, n: nat, k: nat)
    requires n > 0
    ensures x < k * n <==> x / n < k
  {
    var q, r := Quotient(x, n);
    if q < k {
      MulMonotone(q + 1, k, n);
    } else {
      MulMonotone(k, q, n);
    }
  }

  lemma QuotientMonotone(x: nat, y: nat, n: nat)
    requires n > 0 && x <= y
    ensures x / n <= y / n
  {
    var q, r := Quotient(y, n);
    assert x < (q + 1) * n;
    QuotientLess(x, n, q + 1);
  }

  lemma CeilDivBounds(x: nat, n: nat)
    requires n > 0
    ensures x <= CeilDiv(x, n) * n < x + n
  {
    var t := x + (n - 1);
    assert t == (t / n) * n + t % n;
  }

  /** The defining bounds of a rounded-up quotient. */
  lemma CeilDivUnique(x: nat, n: nat, q: nat)
    requires n > 0 && x <= q * n < x + n
    ensures CeilDiv(x, n) == q
  {
    DivModUnique(x + (n - 1), n, q, x + (n - 1) - q * n);
  }

  // ---------------------------------------------------------------------------------------------
  // Alignment of sectors to blocks
  // ---------------------------------------------------------------------------------------------

  /** The test of the alignment macros, on the 64-bit position in bytes. */
  predicate SectorAligned(sector: nat, block: nat)
    requires block > 0
  {
    And(U64(sector * 512), block - 1) == 0
  }

  lemma SectorAlignedExactly(sector: nat, block: nat)
    requires PowerOfTwo(block) && block < 0x1_0000_0000
    ensures SectorAligned(sector, block) <==> sector * 512 % block == 0
  {
    hide And;
    AndMask(U64(sector * 512), block);
    PowerOfTwo32();
    PowerDivides(block, 0x1_0000_0000);
    WordRemainder(sector * 512, block);
  }

  lemma PowerOfTwo32()
    ensures PowerOfTwo(0x1_0000_0000)
  {
    assert PowerOfTwo(0x800) && PowerOfTwo(0x400);
    PowerOfTwoProduct(0x800, 0x800);
    PowerOfTwoProduct(0x40_0000, 0x400);
  }

  lemma {:induction false} PowerDivides(a: nat, b: nat)
    requires PowerOfTwo(a) && PowerOfTwo(b) && a <= b
    ensures b % a == 0
    decreases b
  {
    if a > 1 {
      PowerDivides(a / 2, b / 2);
      var q, r := Quotient(b / 2, a / 2);
      assert b == q * a + 0;
      DivModUnique(b, a, q, 0);
    }
  }

  lemma WordRemainder(x: nat, n: nat)
    requires n > 0 && 0x1_0000_0000 % n == 0
    ensures U64(x) % n == x % n
  {
    var k, z := Quotient(0x1_0000_0000, n);
    var q, r := Quotient(U64(x), n);
    var high := x / 0x1_0000_0000_0000_0000;
    assert x == high * 0x1_0000_0000_0000_0000 + U64(x);
    assert 0x1_0000_0000_0000_0000 == (0x1_0000_0000 * k) * n;
    assert x == (high * (0x1_0000_0000 * k) + q) * n + r;
    DivModUnique(x, n, high * (0x1_0000_0000 * k) + q, r);
  }
}
