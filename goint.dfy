/** Go's fixed-width integer arithmetic, written out over Dafny's unbounded `int`. */
module GoInt {

  const TWO32: int := 0x1_0000_0000
  const TWO64: int := 0x1_0000_0000_0000_0000

  /** Go's `uint32`. */
  type Uint32 = x: int | 0 <= x < 0x1_0000_0000

  /** Go's `int64`, and so `time.Duration` (nanoseconds). */
  type Int64 = x: int | -0x8000_0000_0000_0000 <= x < 0x8000_0000_0000_0000

  /** The conversion `uint32(x)`: keep the low 32 bits. */
  function ToUint32(x: int): (r: Uint32)
    ensures 0 <= x < TWO32 ==> r == x
    ensures (x - r) % TWO32 == 0
  {
    x % TWO32
  }

  /** `a + b` on `uint32`, wrapping around at 2^32. */
  function AddUint32(a: Uint32, b: Uint32): (r: Uint32)
    ensures a + b < TWO32 ==> r == a + b
    ensures a + b >= TWO32 ==> r == a + b - TWO32
  {
    (a + b) % TWO32
  }

  /** Two's-complement wrap-around of an unbounded integer into `int64`. */
  function Wrap64(x: int): (r: Int64)
    ensures -0x8000_0000_0000_0000 <= x < 0x8000_0000_0000_0000 ==> r == x
    ensures (x - r) % TWO64 == 0
  {
    var m := x % TWO64;
    if m < 0x8000_0000_0000_0000 then m else m - TWO64
  }

  /** `a + b` on `int64`: the exact sum when it fits, and otherwise a value congruent to it modulo 2^64. */
  function Add64(a: Int64, b: Int64): (r: Int64)
    ensures -0x8000_0000_0000_0000 <= a + b < 0x8000_0000_0000_0000 ==> r == a + b
    ensures (a + b - r) % TWO64 == 0
  {
    Wrap64(a + b)
  }

  /** Go's integer division `a / b` for a positive divisor: the quotient is truncated toward zero
      (Dafny's own `/` rounds down), so it lies between zero and the dividend, `r * b` never moves
      further from zero than `a`, and the remainder is less than `b` in magnitude. */
  function Quo(a: int, b: int): (r: int)
    requires b > 0
    ensures a >= 0 ==> 0 <= r <= a && r * b <= a < r * b + b
    ensures a < 0 ==> a <= r <= 0 && r * b - b < a <= r * b
    ensures a >= 0 ==> r == a / b
  {
    if a >= 0 then DivBounds(a, b); a / b
    else
      var q := (-a) / b;
      DivBounds(-a, b);
      assert -a == q * b + (-a) % b;
      assert (-q) * b == -(q * b);
      -q
  }

  /** Signs of a product with a positive factor. */
  lemma {:induction false} MulSign(q: int, b: nat)
    ensures q >= 0 ==> q * b >= 0
    ensures q >= 1 ==> q * b >= b
    ensures q <= -1 ==> q * b + b <= 0
  {
    if b > 0 {
      MulSign(q, b - 1);
      assert q * b == q * (b - 1) + q;
    }
  }

  /** Euclidean division of a non-negative dividend stays between zero and the dividend. */
  lemma DivBounds(a: int, b: int)
    requires a >= 0 && b > 0
    ensures 0 <= a / b <= a
  {
    var q, r := a / b, a % b;
    assert a == q * b + r && 0 <= r < b;
    MulSign(q, b);
    if q >= 1 {
      assert q * b == q + q * (b - 1);
      MulSign(q, b - 1);
    }
  }

  /** Whole multiples of 2^32 do not change a remainder. */
  lemma Mod32Multiple(k: int, z: int)
    ensures (k * TWO32 + z) % TWO32 == z % TWO32
  {
  }

  /** Whole multiples of 2^64 do not change a remainder. */
  lemma Mod64Multiple(k: int, z: int)
    ensures (k * TWO64 + z) % TWO64 == z % TWO64
  {
  }

  /** Reducing a summand first does not change the remainder of the sum. */
  lemma Mod32Add(x: int, y: int)
    ensures (x % TWO32 + y) % TWO32 == (x + y) % TWO32
  {
    var q := x / TWO32;
    assert x == q * TWO32 + x % TWO32;
    Mod32Multiple(q, x % TWO32 + y);
  }

  /** Congruent integers wrap to the same `int64`. */
  lemma Wrap64Congruent(x: int, y: int)
    requires (x - y) % TWO64 == 0
    ensures Wrap64(x) == Wrap64(y)
  {
    var k := (x - y) / TWO64;
    assert x - y == k * TWO64;
    Mod64Multiple(k, y);
  }

  /** Wrapping after every addition is the same as wrapping once at the end. */
  lemma Wrap64Add(x: int, y: int)
    ensures Add64(Wrap64(x), Wrap64(y)) == Wrap64(x + y)
  {
    var a: int, b: int := Wrap64(x), Wrap64(y);
    var k1, k2 := (x - a) / TWO64, (y - b) / TWO64;
    assert x - a == k1 * TWO64;
    assert y - b == k2 * TWO64;
    assert (x + y) - (a + b) == (k1 + k2) * TWO64;
    Mod64Multiple(k1 + k2, 0);
    Wrap64Congruent(x + y, a + b);
  }

  /** Adding `inc` `n` times with 32-bit wrap-around, as one reduction of `c + n * inc`. */
  lemma Mod32Scale(c: int, n: nat, inc: int)
    ensures (c + n * (inc % TWO32)) % TWO32 == (c + n * inc) % TWO32
  {
    var q := inc / TWO32;
    var t := n * q;
    assert inc == q * TWO32 + inc % TWO32;
    assert n * inc == t * TWO32 + n * (inc % TWO32) by {
      assert n * inc == n * (q * TWO32) + n * (inc % TWO32);
      assert n * (q * TWO32) == (n * q) * TWO32;
    }
    Mod32Multiple(t, c + n * (inc % TWO32));
  }

  /** The remainder is determined by any decomposition `x == q * c + r` with `0 <= r < c`. */
  lemma ModUnique(x: int, c: int, q: int, r: int)
    requires c > 0 && 0 <= r < c && x == q * c + r
    ensures x % c == r
  {
    var q', r' := x / c, x % c;
    assert x == q' * c + r';
    var d := q - q';
    assert d * c == r' - r by {
      assert d * c == q * c - q' * c;
    }
    MulSign(d, c);
  }

  /** Two numbers less than `c` apart have different remainders. */
  lemma DistinctResidues(a: int, b: int, c: int)
    requires c > 0 && b < a < b + c
    ensures a % c != b % c
  {
    if a % c == b % c {
      var qa, qb := a / c, b / c;
      assert a == qa * c + a % c && b == qb * c + b % c;
      var d := qa - qb;
      assert a - b == d * c by {
        assert d * c == qa * c - qb * c;
      }
      MulSign(d, c);
    }
  }
}
