/**
 * The bucket hash of the neighbour index (Teschner et al., "Optimized Spatial
 * Hashing for Collision Detection of Deformable Objects"): each signed cell
 * coordinate is converted to a 32-bit unsigned value, multiplied by a large
 * prime with wrap-around, and the three products are combined by exclusive or.
 * The primes are 73856093, 19349663 and 83492791.
 *
 * Unsigned values are modelled as naturals below 2^32, and every wrap-around
 * is written as a remainder, so the hash is stated in integer arithmetic.
 */
module SpatialHash {
  import opened SpatialIndex

  const TwoTo32: int := 0x1_0000_0000

  function Pow2(k: nat): (r: nat)
    ensures r >= 1
  {
    if k == 0 then 1 else 2 * Pow2(k - 1)
  }

  /** The conversion of a signed coordinate to 32-bit unsigned: two's complement wrap-around. */
  function ToU32(x: int): (r: nat)
    ensures r < TwoTo32
  {
    x % TwoTo32
  }

  /** A signed coordinate times an unsigned prime: the coordinate is converted, then the product wraps. */
  function Product(x: int, p: nat): nat {
    (ToU32(x) * p) % TwoTo32
  }

  /** Bit `i` of `x`, counted from the least significant. */
  function Bit(x: nat, i: nat): bool {
    if i == 0 then x % 2 == 1 else Bit(x / 2, i - 1)
  }

  /** Bitwise exclusive or of two naturals, one bit at a time from the least significant. */
  function Xor(a: nat, b: nat): nat
    decreases a + b
  {
    if a == 0 && b == 0 then 0 else 2 * Xor(a / 2, b / 2) + (if a % 2 == b % 2 then 0 else 1)
  }

  function TeschnerHash(c: Cell): nat {
    Xor(Xor(Product(c.x, 73856093), Product(c.y, 19349663)), Product(c.z, 83492791))
  }

  /** Each bit of an exclusive or is set exactly when the operands' bits differ. */
  lemma {:induction false} XorBits(a: nat, b: nat, i: nat)
    ensures Bit(Xor(a, b), i) <==> Bit(a, i) != Bit(b, i)
    decreases i
  {
    if i > 0 {
      XorBits(a / 2, b / 2, i - 1);
    }
  }

  lemma {:induction false} XorBelow(a: nat, b: nat, k: nat)
    requires a < Pow2(k) && b < Pow2(k)
    ensures Xor(a, b) < Pow2(k)
  {
    if k > 0 && !(a == 0 && b == 0) {
      XorBelow(a / 2, b / 2, k - 1);
    }
  }

  lemma {:induction false} XorZero(a: nat)
    ensures Xor(a, 0) == a && Xor(0, a) == a
    decreases a
  {
    if a > 0 {
      XorZero(a / 2);
    }
  }

  lemma TwoTo32Pow()
    ensures Pow2(32) == TwoTo32
  {
    assert Pow2(8) == 256;
    assert Pow2(16) == 65536;
    assert Pow2(24) == 0x100_0000;
  }

  /** The unsigned product is the integer product reduced modulo 2^32. */
  lemma ProductWraps(x: int, p: nat)
    ensures Product(x, p) == (x * p) % TwoTo32
  {
    ModMulFirst(x, p, TwoTo32);
  }

  /** The hash is a value between 0 and 2^32 - 1. */
  lemma HashWidth(c: Cell)
    ensures TeschnerHash(c) < TwoTo32
  {
    TwoTo32Pow();
    XorBelow(Product(c.x, 73856093), Product(c.y, 19349663), 32);
    XorBelow(Xor(Product(c.x, 73856093), Product(c.y, 19349663)), Product(c.z, 83492791), 32);
  }

  /** In the 2D neighbourhood every cell has z = 0, so its hash combines x and y only. */
  lemma HashFlat(x: int, y: int)
    ensures TeschnerHash(Cell(x, y, 0)) == Xor(Product(x, 73856093), Product(y, 19349663))
  {
    assert Product(0, 83492791) == 0;
    XorZero(Xor(Product(x, 73856093), Product(y, 19349663)));
  }

  /**
   * Each product can be undone by the prime's inverse modulo 2^32
   * (727089141, 2910444383 and 3695316487), so coordinates that differ as
   * 32-bit values never share a product.
   */
  lemma ProductsInjective(a: int, b: int)
    ensures Product(a, 73856093) == Product(b, 73856093) ==> ToU32(a) == ToU32(b)
    ensures Product(a, 19349663) == Product(b, 19349663) ==> ToU32(a) == ToU32(b)
    ensures Product(a, 83492791) == Product(b, 83492791) ==> ToU32(a) == ToU32(b)
  {
    UndoProduct(a, 73856093, 727089141, 12502997);
    UndoProduct(b, 73856093, 727089141, 12502997);
    UndoProduct(a, 19349663, 2910444383, 13112118);
    UndoProduct(b, 19349663, 2910444383, 13112118);
    UndoProduct(a, 83492791, 3695316487, 71835771);
    UndoProduct(b, 83492791, 3695316487, 71835771);
  }

  /** Multiplying a product by the inverse of its prime gives back the converted coordinate. */
  lemma UndoProduct(a: int, p: nat, inv: nat, k: int)
    requires p * inv == 1 + k * TwoTo32
    ensures (Product(a, p) * inv) % TwoTo32 == ToU32(a)
  {
    ProductWraps(a, p);
    ModMulFirst(a * p, inv, TwoTo32);
    assert a * p * inv == a + (a * k) * TwoTo32;
    ModPlusMultiple(a, a * k, TwoTo32);
  }

  /**
   * The hash is not injective: two different cells of the 2D grid, (1, 0, 0)
   * and (0, 238370179, 0), give the same value, so the table must compare
   * the cells themselves, which is why the index is modelled as a map from
   * cells.
   */
  lemma HashCollides()
    ensures TeschnerHash(Cell(1, 0, 0)) == TeschnerHash(Cell(0, 238370179, 0))
  {
    assert Product(1, 73856093) == 73856093;
    assert Product(0, 19349663) == 0 && Product(0, 73856093) == 0 && Product(0, 83492791) == 0;
    assert Product(238370179, 19349663) == 73856093;
    XorZero(73856093);
  }

  // Remainder arithmetic used above.

  /** Reducing a factor first does not change the remainder of a product. */
  lemma ModMulFirst(y: int, c: int, m: int)
    requires m > 0
    ensures ((y % m) * c) % m == (y * c) % m
  {
    var q, r := y / m, y % m;
    assert y * c == r * c + (q * c) * m;
    ModPlusMultiple(r * c, q * c, m);
  }

  /** Adding a multiple of the modulus does not change the remainder. */
  lemma ModPlusMultiple(x: int, k: int, m: int)
    requires m > 0
    ensures (x + k * m) % m == x % m
  {
    var q, r := x / m, x % m;
    assert x + k * m == (q + k) * m + r;
    ModUnique(x + k * m, m, q + k, r);
  }

  /** A remainder is determined by any quotient-remainder decomposition. */
  lemma ModUnique(n: int, m: int, q: int, r: int)
    requires m > 0 && 0 <= r < m && n == q * m + r
    ensures n % m == r
  {
    var q', r' := n / m, n % m;
    assert (q - q') * m == r' - r;
    if q > q' {
      MulAtLeast(q - q', m);
    } else if q < q' {
      MulAtLeast(q' - q, m);
    }
  }

  lemma MulAtLeast(d: int, m: int)
    requires d >= 1 && m > 0
    ensures d * m >= m
  {
    assert d * m == (d - 1) * m + m;
  }
}
