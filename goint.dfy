/** Go's integer arithmetic where it differs from Dafny's unbounded, Euclidean one:
    the truncating remainder operator `%` and two's-complement wrap-around of int64. */
module GoInt {

  const MinInt64: int := -0x8000_0000_0000_0000
  const MaxInt64: int := 0x7FFF_FFFF_FFFF_FFFF
  const Modulus64: int := 0x1_0000_0000_0000_0000

  predicate IsInt64(x: int) {
    MinInt64 <= x <= MaxInt64
  }

  function Abs(x: int): nat {
    if x < 0 then -x else x
  }

  /** Go's `a % b`: the quotient is truncated toward zero, so a non-zero remainder
      has the sign of the dividend `a`. Go panics when `b` is zero. Together the
      ensures fix the value: `a - r` is a multiple of `b` smaller in magnitude than `b`
      away from `a`, on the side of zero. */
  function Rem(a: int, b: int): (r: int)
    requires b != 0
    ensures (a - r) % Abs(b) == 0
    ensures Abs(r) < Abs(b)
    ensures a >= 0 ==> r >= 0
    ensures a <= 0 ==> r <= 0
  {
    RemDifferenceIsMultiple(a, Abs(b));
    if a >= 0 then a % Abs(b) else -((-a) % Abs(b))
  }

  lemma RemDifferenceIsMultiple(a: int, d: int)
    requires d > 0
    ensures (a - (if a >= 0 then a % d else -((-a) % d))) % d == 0
  {
    if a >= 0 {
      DivMod(a, d);
      assert a - a % d == d * (a / d);
      MultipleMod(a / d, d);
    } else {
      DivMod(-a, d);
      assert a + (-a) % d == d * (-((-a) / d));
      MultipleMod(-((-a) / d), d);
    }
  }

  /** The ensures of Rem admit exactly one value: any r with the same properties is Rem(a, b). */
  lemma RemIsUnique(a: int, b: int, r: int)
    requires b != 0
    requires (a - r) % Abs(b) == 0 && Abs(r) < Abs(b)
    requires a >= 0 ==> r >= 0
    requires a <= 0 ==> r <= 0
    ensures r == Rem(a, b)
  {
    var d, r0 := Abs(b), Rem(a, b);
    assert (a - r0) % d == 0 && -d < r0 < d;
    assert a >= 0 ==> 0 <= r0;
    assert a <= 0 ==> r0 <= 0;
    assert -d < r0 - r < d;
    CloseMultiplesEqual(d, a - r, a - r0);
  }

  /** Two multiples of d less than d apart are equal. */
  lemma CloseMultiplesEqual(d: int, x: int, y: int)
    requires d > 0 && x % d == 0 && y % d == 0 && -d < x - y < d
    ensures x == y
  {
    DivMod(x, d);
    DivMod(y, d);
    var k := x / d - y / d;
    assert x - y == d * k;
    if k > 0 {
      MulAtLeast(d, k);
    } else if k < 0 {
      MulAtLeast(d, -k);
    }
  }

  lemma MulAtLeast(d: int, k: int)
    requires d > 0 && k >= 1
    ensures d * k >= d
  {
  }

  lemma DivMod(a: int, d: int)
    requires d > 0
    ensures a == d * (a / d) + a % d && 0 <= a % d < d
  {
  }

  /** A multiple of d leaves no Euclidean remainder. */
  lemma MultipleMod(q: int, d: int)
    requires d > 0
    ensures (d * q) % d == 0
  {
    ModOfDecomposition(d * q, d, q, 0);
  }

  /** For a non-negative dividend Go's remainder is the Euclidean one. */
  lemma RemOfNonNegative(a: int, b: int)
    requires a >= 0 && b > 0
    ensures Rem(a, b) == a % b
  {
  }

  /** Go's `a % b == 0` test agrees with divisibility for every sign of `a`,
      so a test like `cycle % 4 == 0` means "cycle is a multiple of 4". */
  lemma {:induction false} RemZeroIffDivides(a: int, b: int)
    requires b > 0
    ensures Rem(a, b) == 0 <==> a % b == 0
  {
    if a < 0 {
      var q := (-a) / b;
      assert -a == b * q + (-a) % b;
      if (-a) % b == 0 {
        assert a == b * (-q);
        MultipleMod(-q, b);
      } else {
        assert a == b * (-q - 1) + (b - (-a) % b);
        assert 0 < b - (-a) % b < b;
        ModOfDecomposition(a, b, -q - 1, b - (-a) % b);
      }
    }
  }

  /** Euclidean division is unique: a = b*q + r with 0 <= r < b fixes a % b. */
  lemma ModOfDecomposition(a: int, b: int, q: int, r: int)
    requires b > 0 && 0 <= r < b && a == b * q + r
    ensures a % b == r
  {
    var q', r' := a / b, a % b;
    DivMod(a, b);
    assert b * (q' - q) == r - r';
    if q' - q > 0 {
      MulAtLeast(b, q' - q);
    } else if q' - q < 0 {
      MulAtLeast(b, q - q');
    }
  }

  /** The remainder by a multiple of s of a multiple of s is again a multiple of s:
      durations that are whole seconds stay whole seconds under `%`. */
  lemma RemKeepsMultiple(a: int, b: int, s: int)
    requires a >= 0 && b > 0 && s > 0
    requires a % s == 0 && b % s == 0
    ensures Rem(a, b) % s == 0
  {
    var x := a / s;
    var y := b / s;
    var q := a / b;
    assert a == s * x;
    assert b == s * y;
    assert Rem(a, b) == a - b * q;
    assert Rem(a, b) == s * (x - y * q) by {
      calc {
        a - b * q;
        s * x - (s * y) * q;
        { assert (s * y) * q == s * (y * q); }
        s * x - s * (y * q);
        s * (x - y * q);
      }
    }
    MultipleMod(x - y * q, s);
  }

  /** Two's-complement wrap-around of an int64 result: the unique int64 value congruent
      to x modulo 2^64. */
  function Wrap64(x: int): (r: int)
    ensures IsInt64(r)
    ensures IsInt64(x) ==> r == x
    ensures (x - r) % Modulus64 == 0
  {
    WrapIsCongruent(x);
    (x - MinInt64) % Modulus64 + MinInt64
  }

  lemma WrapIsCongruent(x: int)
    ensures (x - ((x - MinInt64) % Modulus64 + MinInt64)) % Modulus64 == 0
    ensures IsInt64(x) ==> (x - MinInt64) % Modulus64 + MinInt64 == x
  {
    var r := (x - MinInt64) % Modulus64 + MinInt64;
    assert x - r == Modulus64 * ((x - MinInt64) / Modulus64);
    MultipleMod((x - MinInt64) / Modulus64, Modulus64);
    if IsInt64(x) {
      ModOfDecomposition(x - MinInt64, Modulus64, 0, x - MinInt64);
    }
  }
}
