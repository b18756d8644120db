/** Machine integers of the bridge service, the result type of its checked
    operations, and the two Galois connections (floor and ceiling division)
    from which every rounding argument in this project is derived. */
module Numbers {

  const U64_MAX: int := 0xFFFF_FFFF_FFFF_FFFF
  const I64_MAX: int := 0x7FFF_FFFF_FFFF_FFFF
  const I64_MIN: int := -0x8000_0000_0000_0000

  type u8 = x: int | 0 <= x <= 0xFF
  type u32 = x: int | 0 <= x <= 0xFFFF_FFFF
  type u64 = x: int | 0 <= x <= 0xFFFF_FFFF_FFFF_FFFF
  type u128 = x: int | 0 <= x <= 0xFFFF_FFFF_FFFF_FFFF_FFFF_FFFF_FFFF_FFFF
  type i64 = x: int | -0x8000_0000_0000_0000 <= x <= 0x7FFF_FFFF_FFFF_FFFF

  datatype Option<+T> = None | Some(value: T)

  datatype Result<+T, +E> = Ok(value: T) | Err(error: E) {
    predicate IsFailure() { Err? }

    function PropagateFailure<U>(): (r: Result<U, E>)
      requires Err?
    {
      Err(error)
    }

    function Extract(): (v: T)
      requires Ok?
    {
      value
    }
  }

  /** The rounded-up quotient. */
  function CeilDiv(a: nat, b: int): (q: nat)
    requires b > 0
  {
    (a + b - 1) / b
  }

  lemma MulLe(a: int, b: int, c: int)
    requires a <= b && 0 <= c
    ensures a * c <= b * c
  {
  }

  lemma MulLt(a: int, b: int, c: int)
    requires a < b && 0 < c
    ensures a * c < b * c
  {
  }

  /** Cancelling a positive factor. */
  lemma MulCancelLt(a: int, b: int, c: int)
    requires 0 < c && a * c < b * c
    ensures a < b
  {
    if b <= a { MulLe(b, a, c); }
  }

  lemma DivBounds(a: int, b: int)
    requires b > 0
    ensures (a / b) * b <= a < (a / b) * b + b
  {
  }

  /** Floor division is the upper adjoint of multiplication. */
  lemma FloorIff(a: int, b: int, q: int)
    requires b > 0
    ensures q <= a / b <==> q * b <= a
  {
    DivBounds(a, b);
    if q <= a / b {
      MulLe(q, a / b, b);
    } else {
      MulLe(a / b + 1, q, b);
    }
  }

  /** Ceiling division is the lower adjoint of multiplication. */
  lemma CeilIff(a: nat, b: int, q: int)
    requires b > 0
    ensures CeilDiv(a, b) <= q <==> a <= q * b
  {
    FloorIff(a + b - 1, b, q + 1);
    assert (q + 1) * b == q * b + b;
  }

  lemma FloorMonotone(a: int, a': int, b: int)
    requires b > 0 && a <= a'
    ensures a / b <= a' / b
  {
    DivBounds(a, b);
    FloorIff(a', b, a / b);
  }

  lemma CeilMonotone(a: nat, a': nat, b: int)
    requires b > 0 && a <= a'
    ensures CeilDiv(a, b) <= CeilDiv(a', b)
  {
    FloorMonotone(a + b - 1, a' + b - 1, b);
  }

  lemma CeilBounds(a: nat, b: int)
    requires b > 0
    ensures a <= CeilDiv(a, b) * b < a + b
  {
    DivBounds(a + b - 1, b);
  }

  lemma Distribute(p: int, q: int, b: int)
    ensures (p + q) * b == p * b + q * b
  {
  }

  /** Two numerators rounded up together cost at most what they cost apart,
      and apart at most one unit more. */
  lemma CeilSubadditive(a: nat, c: nat, b: int)
    requires b > 0
    ensures CeilDiv(a + c, b) <= CeilDiv(a, b) + CeilDiv(c, b) <= CeilDiv(a + c, b) + 1
  {
    var p, q, r := CeilDiv(a, b), CeilDiv(c, b), CeilDiv(a + c, b);
    CeilBounds(a, b);
    CeilBounds(c, b);
    CeilBounds(a + c, b);
    Distribute(p, q, b);
    CeilIff(a + c, b, p + q);
    if p + q >= r + 2 {
      MulLe(r + 2, p + q, b);
      Distribute(r, 2, b);
    }
  }

  lemma FloorSuperadditive(a: nat, c: nat, b: int)
    requires b > 0
    ensures a / b + c / b <= (a + c) / b
  {
    DivBounds(a, b);
    DivBounds(c, b);
    assert (a / b + c / b) * b == (a / b) * b + (c / b) * b;
    FloorIff(a + c, b, a / b + c / b);
  }

  /** A product of two u64 values widened to u128 never overflows. */
  function Widen(a: u64, b: u64): (p: u128)
    ensures p == a * b
  {
    MulLe(a, U64_MAX, b);
    MulLe(b, U64_MAX, U64_MAX);
    assert a * b <= U64_MAX * b && b * U64_MAX <= U64_MAX * U64_MAX && U64_MAX * b == b * U64_MAX;
    a * b
  }

  function SaturatingAddI64(a: i64, b: i64): (s: i64)
  {
    if a + b > I64_MAX then I64_MAX else if a + b < I64_MIN then I64_MIN else a + b
  }

  function Pow10(k: nat): (p: nat)
    ensures p >= 1
  {
    if k == 0 then 1 else 10 * Pow10(k - 1)
  }

  lemma {:induction false} Pow10Add(j: nat, k: nat)
    ensures Pow10(j + k) == Pow10(j) * Pow10(k)
  {
    if k > 0 {
      Pow10Add(j, k - 1);
      assert Pow10(j + k) == 10 * (Pow10(j) * Pow10(k - 1)) == Pow10(j) * (10 * Pow10(k - 1));
    }
  }

  lemma {:induction false} Pow10Monotone(j: nat, k: nat)
    requires j <= k
    ensures Pow10(j) <= Pow10(k)
    decreases k - j
  {
    if j < k { Pow10Monotone(j, k - 1); }
  }

  lemma Pow10Values()
    ensures Pow10(8) == 100_000_000 && Pow10(19) == 10_000_000_000_000_000_000
    ensures Pow10(20) == 100_000_000_000_000_000_000
  {
    assert Pow10(4) == 10_000;
    assert Pow10(8) == 100_000_000;
    assert Pow10(12) == 1_000_000_000_000;
    assert Pow10(16) == 10_000_000_000_000_000;
    assert Pow10(20) == 100_000_000_000_000_000_000;
  }
}
