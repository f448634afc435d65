/**
 * The C integer arithmetic that the KMemory size macros are evaluated in:
 * the four fixed-width types a macro argument can have, multiplication in
 * such a type (wrap-around for unsigned types, undefined behaviour for a
 * signed overflow) and the `(uint64_t)` cast.
 */
module CInt {

  const TWO_32: int := 0x1_0000_0000
  const TWO_64: int := 0x1_0000_0000_0000_0000

  /** The type a macro argument `n` has after the integer promotions. */
  datatype IntType = I32 | U32 | I64 | U64

  /** The value of a C expression: a number, or undefined behaviour (a signed overflow). */
  datatype Eval = Defined(value: int) | Undefined

  predicate Signed(t: IntType) {
    t == I32 || t == I64
  }

  /** 2^width: the modulus of unsigned arithmetic in `t`. */
  function Modulus(t: IntType): (m: int)
    ensures m == TWO_32 || m == TWO_64
  {
    if t == I32 || t == U32 then TWO_32 else TWO_64
  }

  function MinOf(t: IntType): int {
    if Signed(t) then -(Modulus(t) / 2) else 0
  }

  function MaxOf(t: IntType): int {
    if Signed(t) then Modulus(t) / 2 - 1 else Modulus(t) - 1
  }

  /** `x` is a value of type `t`. */
  predicate Fits(t: IntType, x: int) {
    MinOf(t) <= x <= MaxOf(t)
  }

  /**
   * `a * b` evaluated in type `t` (both operands already of type `t`, so the
   * usual arithmetic conversions change nothing): the exact product when it is
   * representable; otherwise the product reduced modulo 2^width for an unsigned
   * type and undefined behaviour for a signed one.
   */
  function Mul(t: IntType, a: int, b: int): (r: Eval)
    requires Fits(t, a) && Fits(t, b)
    ensures r.Defined? <==> !Signed(t) || Fits(t, a * b)
    ensures r.Defined? ==> Fits(t, r.value) && (r.value - a * b) % Modulus(t) == 0
    ensures Fits(t, a * b) ==> r == Defined(a * b)
  {
    if Signed(t) then
      if Fits(t, a * b) then Defined(a * b) else Undefined
    else
      var p := a * b;
      ModOfMultiple(-(p / Modulus(t)), Modulus(t));
      ModExactIff(p, Modulus(t));
      Defined(p % Modulus(t))
  }

  /**
   * The conversion `(uint64_t)x` of a value of type `t`: a non-negative value
   * is kept, a negative one has 2^64 added to it.
   */
  function ToU64(t: IntType, x: int): (r: int)
    requires Fits(t, x)
    ensures Fits(U64, r)
    ensures 0 <= x ==> r == x
    ensures x < 0 ==> r == x + TWO_64
  {
    if 0 <= x then ModSmall(x, TWO_64); x % TWO_64
    else ModSmall(x + TWO_64, TWO_64); ModAddMultiple(x, 1, TWO_64); x % TWO_64
  }

  // ---- Euclidean remainder facts used by the closed forms ----

  lemma ModSmall(x: int, m: int)
    requires 0 <= x < m
    ensures x % m == x
  {
  }

  /** Remainders are unique: `n == q*m + r` with `0 <= r < m` forces `n % m == r`. */
  lemma {:induction false} ModUnique(n: int, m: int, q: int, r: int)
    requires m > 0 && 0 <= r < m && n == q * m + r
    ensures n % m == r
  {
    var q', r' := n / m, n % m;
    assert (q - q') * m == r' - r;
    if q > q' {
      assert (q - q') * m >= m by { MulAtLeast(q - q', m); }
    } else if q < q' {
      assert (q' - q) * m >= m by { MulAtLeast(q' - q, m); }
    }
  }

  lemma MulAtLeast(k: int, m: int)
    requires k >= 1 && m > 0
    ensures k * m >= m
  {
  }

  lemma ModOfMultiple(k: int, m: int)
    requires m > 0
    ensures (k * m) % m == 0
  {
    ModUnique(k * m, m, k, 0);
  }

  lemma ModAddMultiple(y: int, k: int, m: int)
    requires m > 0
    ensures (y + k * m) % m == y % m
  {
    ModUnique(y + k * m, m, y / m + k, y % m);
  }

  /** Reducing a factor before multiplying does not change the product's remainder. */
  lemma ModMulLeft(a: int, x: int, m: int)
    requires m > 0
    ensures (a * (x % m)) % m == (a * x) % m
  {
    var q := x / m;
    assert a * x == a * (x % m) + (a * q) * m;
    ModAddMultiple(a * (x % m), a * q, m);
  }

  /** A non-negative number equals its remainder exactly when it is below the modulus. */
  lemma ModExactIff(x: int, m: int)
    requires 0 <= x && m > 0
    ensures x % m == x <==> x < m
  {
  }
}
