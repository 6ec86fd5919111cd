/** The machine integers of the auditor, written out: `u64`, `u128`, the `i64` columns of SQLite, powers of ten. */
module Numbers {

  const TWO_63: int := 0x8000_0000_0000_0000
  const TWO_64: int := 0x1_0000_0000_0000_0000
  const TWO_128: int := 0x1_0000_0000_0000_0000_0000_0000_0000_0000

  type U8 = x: int | 0 <= x < 256
  type U64 = x: int | 0 <= x < TWO_64
  type U128 = x: int | 0 <= x < TWO_128
  type I64 = x: int | -TWO_63 <= x < TWO_63

  /** The `as i64` cast: SQLite has no unsigned column, so every `u64` is stored through it. */
  function AsI64(x: U64): I64 {
    if x < TWO_63 then x else x - TWO_64
  }

  /** The `as u64` cast that reads such a column back. */
  function AsU64(x: I64): U64 {
    if x < 0 then x + TWO_64 else x
  }

  /** Both casts keep the 64 bits: the value changes by a multiple of 2^64 only. */
  lemma CastsKeepBits(x: U64, y: I64)
    ensures (AsI64(x) - x) % TWO_64 == 0 && (AsU64(y) - y) % TWO_64 == 0
    ensures AsU64(AsI64(x)) == x && AsI64(AsU64(y)) == y
  {
  }

  /** Addition of a release build, where overflow checks are off. */
  function WrappingAdd(x: U64, y: U64): U64 {
    (x + y) % TWO_64
  }

  lemma WrappingAddMod(x: nat, y: U64)
    ensures WrappingAdd(x % TWO_64, y) == (x + y) % TWO_64
  {
    var q, r := x / TWO_64, x % TWO_64;
    assert x == q * TWO_64 + r;
    if r + y >= TWO_64 {
      assert x + y == (q + 1) * TWO_64 + (r + y - TWO_64);
    } else {
      assert x + y == q * TWO_64 + (r + y);
    }
  }

  function Pow10(k: nat): (p: nat)
    ensures p > 0
  {
    if k == 0 then 1 else 10 * Pow10(k - 1)
  }

  lemma {:induction false} Pow10Monotone(i: nat, j: nat)
    requires i <= j
    ensures Pow10(i) <= Pow10(j)
    decreases j
  {
    if i < j {
      Pow10Monotone(i, j - 1);
    }
  }

  lemma {:induction false} Pow10Add(i: nat, j: nat)
    ensures Pow10(i + j) == Pow10(i) * Pow10(j)
    decreases j
  {
    if j > 0 {
      Pow10Add(i, j - 1);
      assert Pow10(i + j) == 10 * Pow10(i + (j - 1));
      assert 10 * (Pow10(i) * Pow10(j - 1)) == Pow10(i) * (10 * Pow10(j - 1));
    }
  }

  lemma Pow10Of8()
    ensures Pow10(8) == 100_000_000
  {
    assert Pow10(4) == 10_000;
    Pow10Add(4, 4);
  }

  lemma Pow10Of30()
    ensures Pow10(30) == 1_000_000_000_000_000_000_000_000_000_000
  {
    assert Pow10(5) == 100_000;
    Pow10Add(5, 5);
    Pow10Add(10, 10);
    Pow10Add(20, 10);
  }

  lemma Pow10Of38()
    ensures Pow10(38) == 100_000_000_000_000_000_000_000_000_000_000_000_000
  {
    Pow10Of8();
    Pow10Of30();
    Pow10Add(30, 8);
  }

  /** The largest power of ten that a `u128` holds is the 38th. */
  lemma Pow10FitsU128(k: nat)
    ensures k <= 38 <==> Pow10(k) < TWO_128
  {
    Pow10Of38();
    assert Pow10(39) == 10 * Pow10(38);
    if k <= 38 {
      Pow10Monotone(k, 38);
    } else {
      Pow10Monotone(39, k);
    }
  }

  /** Division rounding down, the only way a `u128` divides. */
  function Quotient(x: nat, d: nat): (q: nat)
    requires d > 0
    ensures q * d <= x < q * d + d
  {
    DivisionBounds(x, d);
    x / d
  }

  lemma DivisionBounds(x: nat, d: nat)
    requires d > 0
    ensures x / d >= 0
    ensures x / d * d <= x < x / d * d + d
  {
    assert x == x / d * d + x % d;
  }

  lemma MulMonotone(a: nat, b: nat, c: nat)
    requires a <= b
    ensures a * c <= b * c
  {
    assert (b - a) * c >= 0;
  }
}
