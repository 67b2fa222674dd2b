/** Two-component integer vectors (`Vec2<i32>`, alias `Vec2i`) and their
    componentwise operators `+`, `-`, `*`, `/`.

    The components are 32-bit signed integers.  Rust panics on a division
    by zero and, in a debug build, when an `i32` operator overflows (a
    release build wraps); each operator therefore requires that its result
    fits, which is exactly the condition under which a debug build does
    not panic. */
module Math {

  const MinI32: int := -0x8000_0000
  const MaxI32: int := 0x7fff_ffff

  newtype i32 = n: int | -0x8000_0000 <= n < 0x8000_0000

  predicate InI32(n: int) { MinI32 <= n <= MaxI32 }

  datatype Vec2 = Vec2(x: i32, y: i32)

  function Abs(n: int): nat { if n < 0 then -n else n }

  /** `as i32` applied to a `usize`: keeps the low 32 bits, read as two's
      complement. */
  function WrapI32(n: nat): (r: i32)
    ensures r as int <= n
    ensures n <= MaxI32 ==> r as int == n
  {
    var low := n % 0x1_0000_0000;
    (if low <= MaxI32 then low else low - 0x1_0000_0000) as i32
  }

  predicate CanAdd(a: Vec2, b: Vec2) {
    InI32(a.x as int + b.x as int) && InI32(a.y as int + b.y as int)
  }

  predicate CanSub(a: Vec2, b: Vec2) {
    InI32(a.x as int - b.x as int) && InI32(a.y as int - b.y as int)
  }

  predicate CanMul(a: Vec2, b: Vec2) {
    InI32(a.x as int * b.x as int) && InI32(a.y as int * b.y as int)
  }

  /** A component division panics on a zero divisor and on `i32::MIN / -1`. */
  predicate CanDivide(n: i32, d: i32) {
    d != 0 && !(n as int == MinI32 && d == -1)
  }

  predicate CanDiv(a: Vec2, b: Vec2) {
    CanDivide(a.x, b.x) && CanDivide(a.y, b.y)
  }

  /** `a + b`; subtracting `b` again gives back `a`. */
  function Add(a: Vec2, b: Vec2): (r: Vec2)
    requires CanAdd(a, b)
    ensures CanSub(r, b) && Sub(r, b) == a
  {
    Vec2(a.x + b.x, a.y + b.y)
  }

  /** `a - b`; adding `b` again gives back `a`. */
  function Sub(a: Vec2, b: Vec2): (r: Vec2)
    requires CanSub(a, b)
    ensures r.x as int + b.x as int == a.x as int && r.y as int + b.y as int == a.y as int
  {
    Vec2(a.x - b.x, a.y - b.y)
  }

  /** `a * b`, componentwise; dividing by a `b` without zero components
      gives back `a`. */
  function Mul(a: Vec2, b: Vec2): (r: Vec2)
    requires CanMul(a, b)
    ensures b.x != 0 && b.y != 0 ==> CanDiv(r, b) && Div(r, b) == a
  {
    if b.x != 0 && b.y != 0 then
      ProductQuotient(a.x as int, b.x as int);
      ProductQuotient(a.y as int, b.y as int);
      Vec2(a.x * b.x, a.y * b.y)
    else
      Vec2(a.x * b.x, a.y * b.y)
  }

  /** Rust's integer `/`: the quotient of the magnitudes, negated when
      the operands have opposite signs, so it is rounded toward zero. */
  function TruncDiv(n: int, d: int): int
    requires d != 0
  {
    if (n < 0) == (d < 0) then Abs(n) / Abs(d) else -(Abs(n) / Abs(d))
  }

  /** What rounding toward zero means: the remainder `n - q * d` is
      smaller than the divisor and takes the sign of the dividend, and the
      quotient is no larger than the dividend.  (Dafny's own `/` keeps the
      remainder non-negative instead; the two differ for negative
      dividends.) */
  lemma TruncDivSpec(n: int, d: int)
    requires d != 0
    ensures Abs(n - TruncDiv(n, d) * d) < Abs(d)
    ensures n - TruncDiv(n, d) * d == 0 || (n - TruncDiv(n, d) * d < 0 <==> n < 0)
    ensures Abs(TruncDiv(n, d)) * Abs(d) <= Abs(n)
  {
    var nn: int, dd: int := Abs(n), Abs(d);
    var a: int, m: int := nn / dd, nn % dd;
    NatDivision(nn, dd);
    var p := a * dd;
    assert nn == p + m && 0 <= m < dd;
    var q := TruncDiv(n, d);
    var rem: int;
    if n >= 0 && d > 0 {
      assert q == a && q * d == p;
      rem := m;
    } else if n < 0 && d < 0 {
      assert q == a;
      MulNeg(a, dd);
      assert q * d == -p;
      rem := -m;
    } else if n < 0 {
      assert q == -a;
      MulNeg(a, dd);
      assert q * d == -p;
      rem := -m;
    } else {
      assert q == -a && d == -dd;
      MulNegNeg(a, dd);
      assert q * d == p;
      rem := m;
    }
    assert n - q * d == rem;
    assert a >= 0 && (q == a || q == -a);
  }

  /** Truncating division undoes a multiplication: `(n * d) / d == n`. */
  lemma ProductQuotient(n: int, d: int)
    requires d != 0
    ensures TruncDiv(n * d, d) == n
  {
    var nn, dd := Abs(n), Abs(d);
    assert Abs(n * d) == nn * dd by {
      if n < 0 { MulNeg(-n, d); }
      if d < 0 { MulNeg(n, -d); }
      if n < 0 && d < 0 { MulNegNeg(-n, -d); }
    }
    assert nn * dd / dd == nn by {
      NatDivision(nn * dd, dd);
      ExactQuotient(nn, dd, (nn * dd) / dd, (nn * dd) % dd);
    }
    assert n != 0 ==> ((n * d < 0) <==> (n < 0) != (d < 0)) by {
      if n != 0 { NonzeroProductSign(n, d); }
    }
  }

  /** Division with remainder is unique. */
  lemma ExactQuotient(a: nat, d: nat, q: int, m: int)
    requires d > 0 && a * d == q * d + m && 0 <= m < d
    ensures q == a && m == 0
  {
    if q < a {
      assert q * d + d <= a * d by { MulMonotoneInt(q + 1, a, d); }
    } else if q > a {
      assert a * d + d <= q * d by { MulMonotoneInt(a + 1, q, d); }
    }
  }

  lemma MulMonotoneInt(x: int, y: int, d: nat)
    requires x <= y
    ensures x * d <= y * d
  {
    assert y * d - x * d == (y - x) * d;
  }

  lemma NonzeroProductSign(n: int, d: int)
    requires n != 0 && d != 0
    ensures (n * d < 0) <==> (n < 0) != (d < 0)
  {
    if n > 0 && d > 0 {
      MulMonotoneInt(1, n, d);
    } else if n < 0 && d < 0 {
      MulNegNeg(-n, -d);
      MulMonotoneInt(1, -n, -d);
    } else if n < 0 {
      MulNeg(-n, d);
      MulMonotoneInt(1, -n, d);
    } else {
      MulNeg(n, -d);
      MulMonotoneInt(1, n, -d);
    }
  }

  lemma DoubleBound(a: nat, d: nat, n: nat)
    requires 2 <= d && a * d <= n
    ensures a * 2 <= n
  {
    assert a * d == a * 2 + a * (d - 2);
  }

  lemma NatDivision(n: nat, d: nat)
    requires d > 0
    ensures n == (n / d) * d + n % d && 0 <= n % d < d && 0 <= n / d
  {
  }

  lemma MulNeg(a: int, b: int)
    ensures a * -b == -(a * b) && -a * b == -(a * b)
  {
  }

  lemma MulNegNeg(a: int, b: int)
    ensures -a * -b == a * b
  {
  }

  /** `a / b`, componentwise, with Rust's truncating division */
  function Div(a: Vec2, b: Vec2): (r: Vec2)
    requires CanDiv(a, b)
    ensures r.x as int == TruncDiv(a.x as int, b.x as int)
    ensures r.y as int == TruncDiv(a.y as int, b.y as int)
  {
    Vec2(DivI32(a.x, b.x), DivI32(a.y, b.y))
  }

  /** One component of `/`: the quotient of two `i32`s fits an `i32`
      unless the division is `i32::MIN / -1`. */
  function DivI32(n: i32, d: i32): (q: i32)
    requires CanDivide(n, d)
    ensures q as int == TruncDiv(n as int, d as int)
  {
    QuotientFits(n, d);
    TruncDiv(n as int, d as int) as i32
  }

  lemma QuotientFits(n: i32, d: i32)
    requires CanDivide(n, d)
    ensures InI32(TruncDiv(n as int, d as int))
  {
    var q := TruncDiv(n as int, d as int);
    if Abs(d as int) == 1 {
      assert Abs(n as int) / 1 == Abs(n as int);
    } else {
      TruncDivSpec(n as int, d as int);
      DoubleBound(Abs(q), Abs(d as int), Abs(n as int));
    }
  }

  /** `+` is commutative. */
  lemma AddCommutes(a: Vec2, b: Vec2)
    requires CanAdd(a, b)
    ensures CanAdd(b, a) && Add(a, b) == Add(b, a)
  {
  }

  /** `*` by `(1, 1)` is the identity and `/` by `(1, 1)` too. */
  lemma UnitScaling(a: Vec2)
    ensures CanMul(a, Vec2(1, 1)) && Mul(a, Vec2(1, 1)) == a
    ensures CanDiv(a, Vec2(1, 1)) && Div(a, Vec2(1, 1)) == a
  {
  }

  /** Truncating and Euclidean division part ways on negative operands:
      Rust computes `-7 / 2 == -3` where Dafny's `/` gives `-4`. */
  lemma TruncationDiffersFromEuclid()
    ensures TruncDiv(-7, 2) == -3 && -7 / 2 == -4
    ensures TruncDiv(7, -2) == -3 && 7 / -2 == -3
  {
  }
}
