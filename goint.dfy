/** Go's fixed-width integer semantics, written out over Dafny's unbounded integers. */
module GoInt {

  function Abs(x: int): nat { if x < 0 then -x else x }

  /** Go's `a / b` on signed integers: the quotient truncated toward zero. */
  function Quo(a: int, b: int): (q: int)
    requires b != 0
    ensures Abs(q) == Abs(a) / Abs(b)
    ensures ((a >= 0) == (b > 0)) ==> q >= 0
    ensures ((a >= 0) != (b > 0)) ==> q <= 0
  {
    var n := Abs(a) / Abs(b);
    NatDivBounds(Abs(a), Abs(b), n);
    if (a < 0) == (b < 0) then n else -n
  }

  /** Go's `a % b` on signed integers: the remainder carries the sign of the dividend. */
  function Rem(a: int, b: int): (r: int)
    requires b != 0
    ensures a == b * Quo(a, b) + r
    ensures Abs(r) < Abs(b)
    ensures r == 0 || ((r < 0) <==> (a < 0))
  {
    var n := Abs(a) % Abs(b);
    RemIdentity(a, b);
    if a < 0 then -n else n
  }

  lemma NatDivBounds(n: nat, d: nat, k: nat)
    requires d > 0 && k == n / d
    ensures d * k <= n < d * (k + 1)
    ensures k > 0 ==> n > 0
  {
  }

  lemma RemIdentity(a: int, b: int)
    requires b != 0
    ensures a == b * Quo(a, b) + (if a < 0 then -(Abs(a) % Abs(b)) else Abs(a) % Abs(b))
  {
    var n, m := Abs(a) / Abs(b), Abs(a) % Abs(b);
    assert Abs(a) == Abs(b) * n + m;
    if a >= 0 && b > 0 {
    } else if a >= 0 {
      assert b * -n == Abs(b) * n;
    } else if b > 0 {
      assert b * -n == -(Abs(b) * n);
    } else {
      assert b * n == -(Abs(b) * n);
    }
  }

  /** For a non-negative dividend and a positive divisor Go and Dafny divide alike. */
  lemma QuoRemNonNegative(a: int, b: int)
    requires a >= 0 && b > 0
    ensures Quo(a, b) == a / b && Rem(a, b) == a % b
  {
  }

  const TwoTo31: int := 0x8000_0000
  const TwoTo32: int := 0x1_0000_0000
  /** The number of values of Go's `uint` (64 bits on the platforms the packages target). */
  const UintModulus: int := 0x1_0000_0000_0000_0000

  predicate IsInt32(x: int) { -TwoTo31 <= x < TwoTo31 }
  predicate IsUint(x: int) { 0 <= x < UintModulus }

  /** Two's-complement wrap-around of an exact result into `int32` (Go's `rune`). */
  function Wrap32(x: int): (r: int)
    ensures IsInt32(r)
    ensures (x - r) % TwoTo32 == 0
    ensures IsInt32(x) ==> r == x
  {
    (x + TwoTo31) % TwoTo32 - TwoTo31
  }

  lemma {:induction false} ModShift(a: int, m: int)
    ensures (a + TwoTo32 * m) % TwoTo32 == a % TwoTo32
    decreases Abs(m)
  {
    if m > 0 {
      ModShift(a, m - 1);
      assert a + TwoTo32 * m == (a + TwoTo32 * (m - 1)) + TwoTo32;
    } else if m < 0 {
      ModShift(a, m + 1);
      assert a + TwoTo32 * m + TwoTo32 == a + TwoTo32 * (m + 1);
    }
  }

  /** Results congruent modulo 2^32 wrap to the same `int32`. */
  lemma Wrap32Congruent(a: int, b: int, m: int)
    requires a == b + TwoTo32 * m
    ensures Wrap32(a) == Wrap32(b)
  {
    ModShift(b + TwoTo31, m);
    assert a + TwoTo31 == (b + TwoTo31) + TwoTo32 * m;
  }

  /** Wrapping the intermediate result of `(1 + x) * 26 + v` after every step gives the same
      `int32` as wrapping only the exact final result. */
  lemma Wrap32Step(x: int, v: int)
    ensures Wrap32((1 + Wrap32(x)) * 26 + v) == Wrap32((1 + x) * 26 + v)
  {
    var q := (x + TwoTo31) / TwoTo32;
    var w := Wrap32(x);
    assert x + TwoTo31 == TwoTo32 * q + (x + TwoTo31) % TwoTo32;
    assert w == x - TwoTo32 * q;
    assert (1 + x) * 26 + v == ((1 + w) * 26 + v) + TwoTo32 * (26 * q);
    Wrap32Congruent((1 + x) * 26 + v, (1 + w) * 26 + v, 26 * q);
  }
}
