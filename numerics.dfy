/**
 * Integral numerics: the lossless upconversion applied to values entering
 * the store (narrow integers become Long, BigInteger becomes BigInt) and
 * the two's-complement narrowing applied to values leaving it.
 */
module Numerics {
  import opened Values

  /** 2^width for the fixed-width kinds; `None` for the arbitrary-precision ones. */
  function Modulus(k: IntKind): Option<nat> {
    match k
    case Byte => Some(0x100)
    case Short => Some(0x1_0000)
    case Int => Some(0x1_0000_0000)
    case Long => Some(0x1_0000_0000_0000_0000)
    case BigInteger => None
    case BigInt => None
  }

  /** `n` is representable in kind `k`. */
  predicate Fits(k: IntKind, n: int) {
    match Modulus(k)
    case None => true
    case Some(m) => -(m / 2) <= n < m / 2
  }

  /**
   * Two's-complement truncation of `n` to the width of `k`: what
   * `intValue()`, `shortValue()` and friends do to an integral number.
   */
  function NarrowTo(k: IntKind, n: int): (r: int)
    ensures Fits(k, r)
    ensures Modulus(k).Some? ==> r % Modulus(k).value == n % Modulus(k).value
  {
    match Modulus(k)
    case Some(m) => Truncate(n, m)
    case None => n
  }

  /** The representative of `n` modulo `m` in `[-m/2, m/2)`. */
  function Truncate(n: int, m: nat): (r: int)
    requires m > 0 && m % 2 == 0
    ensures -(m / 2) <= r < m / 2
    ensures r % m == n % m
  {
    var low := n % m;
    ModSmall(low, m);
    if low >= m / 2 then
      ModShift(low, m);
      low - m
    else low
  }

  lemma ModSmall(x: int, m: int)
    requires 0 <= x < m
    ensures x % m == x
  {
  }

  lemma ModShift(x: int, m: int)
    requires 0 <= x < m
    ensures (x - m) % m == x
  {
    var q := (x - m) / m;
    assert x - m == q * m + (x - m) % m;
  }

  /** Truncation leaves a number that already fits untouched. */
  lemma NarrowFitting(k: IntKind, n: int)
    requires Fits(k, n)
    ensures NarrowTo(k, n) == n
  {
  }

  /**
   * `maybeUpconvert`: boxed and unboxed integral numerics become Long,
   * BigInteger becomes BigInt, with the same mathematical value; anything
   * else is returned as it is.
   */
  function Upconvert(v: Value): (r: Value)
    ensures r.Num? <==> v.Num?
    ensures !v.Num? ==> r == v
    ensures v.Num? ==> r.n == v.n && (r.kind == Long || r.kind == BigInt)
    ensures v.Num? && Fits(v.kind, v.n) ==> Fits(r.kind, r.n)
  {
    match v
    case Num(k, n) =>
      (match k
       case Byte => Num(Long, n)
       case Short => Num(Long, n)
       case Int => Num(Long, n)
       case Long => v
       case BigInteger => Num(BigInt, n)
       case BigInt => v)
    case _ => v
  }

  /** The classes `isNumeric` accepts. */
  predicate IsNumeric(c: ClassKind) {
    c.NumClass?
  }

  /**
   * `maybeDownconvert(type, value)`: an integral value is narrowed to the
   * target kind, null passes through, anything else fails the cast.
   */
  function Downconvert(k: IntKind, v: Value): (r: Result<Value>)
    ensures r.Ok? <==> v.Null? || v.Num?
    ensures v.Num? ==> r.value.Num? && r.value.kind == k && Fits(k, r.value.n)
  {
    match v
    case Null => Ok(Null)
    case Num(_, n) => Ok(Num(k, NarrowTo(k, n)))
    case _ => Err(ClassCast)
  }

  /** A value that fits its kind comes back unchanged from up- then downconversion. */
  lemma DownconvertUpconvert(k: IntKind, n: int)
    requires Fits(k, n)
    ensures Downconvert(k, Upconvert(Num(k, n))) == Ok(Num(k, n))
  {
    NarrowFitting(k, n);
  }

  /** Narrowing a value that does not fit changes it, keeping it congruent modulo 2^width. */
  lemma DownconvertOverflow(k: IntKind, n: int)
    requires Modulus(k).Some? && !Fits(k, n)
    ensures Downconvert(k, Num(Long, n)).value.n != n
    ensures Downconvert(k, Num(Long, n)).value.n % Modulus(k).value == n % Modulus(k).value
  {
  }
}
