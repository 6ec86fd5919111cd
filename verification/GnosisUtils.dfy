/** Scaling an Ethereum amount down to the precision of the MobileCoin token. */
module GnosisUtils {
  import opened Wrappers
  import opened Numbers

  function OrdersReduced(tokenDecimals: U8, maxDecimals: U8): nat {
    if tokenDecimals > maxDecimals then tokenDecimals - maxDecimals else 0
  }

  /**
    * The power of ten is computed in `u128` and wraps in a release build. None is a panic: the wrapped
    * denominator is zero, or the quotient does not fit a `u64`.
    */
  function TruncateValue(raw: U128, tokenDecimals: U8, maxDecimals: U8): Option<U64> {
    if tokenDecimals > maxDecimals then
      var denominator := Pow10(tokenDecimals - maxDecimals) % TWO_128;
      if denominator == 0 then None else FitU64(Quotient(raw, denominator))
    else FitU64(raw)
  }

  function FitU64(x: nat): Option<U64> {
    if x < TWO_64 then Some(x) else None
  }

  /** What the scaling is for: the exact quotient rounded down, or a panic when that does not fit. */
  function Floored(raw: U128, orders: nat): Option<U64> {
    FitU64(Quotient(raw, Pow10(orders)))
  }

  lemma QuotientBelow(x: nat, d: nat)
    requires d > 0
    ensures Quotient(x, d) == 0 <==> x < d
  {
    if Quotient(x, d) > 0 {
      MulMonotone(1, Quotient(x, d), d);
    }
  }

  /**
    * The scaling rounds down exactly when the power of ten fits a `u128`, or the raw value is below the
    * wrapped denominator.
    */
  lemma TruncateExactlyWhen(raw: U128, tokenDecimals: U8, maxDecimals: U8)
    ensures var orders := OrdersReduced(tokenDecimals, maxDecimals);
            TruncateValue(raw, tokenDecimals, maxDecimals) == Floored(raw, orders)
            <==> orders <= 38 || raw < Pow10(orders) % TWO_128
  {
    var orders := OrdersReduced(tokenDecimals, maxDecimals);
    Pow10FitsU128(orders);
    if orders == 0 {
      assert Pow10(0) == 1 && Quotient(raw, 1) == raw;
    } else if orders <= 38 {
      assert Pow10(orders) % TWO_128 == Pow10(orders);
    } else {
      QuotientBelow(raw, Pow10(orders));
      var wrapped := Pow10(orders) % TWO_128;
      if wrapped > 0 {
        QuotientBelow(raw, wrapped);
      }
    }
  }

  /** Thirty-nine orders of magnitude are one too many: this value is worth nothing and scales to one. */
  lemma TruncateOverflows(tokenDecimals: U8, maxDecimals: U8)
    requires tokenDecimals == maxDecimals + 39
    ensures var raw := 319435266158123073073250785136463577088;
            TruncateValue(raw, tokenDecimals, maxDecimals) == Some(1) && Floored(raw, 39) == Some(0)
  {
    var raw := 319435266158123073073250785136463577088;
    var orders: nat := tokenDecimals - maxDecimals;
    Pow10Of38();
    assert Pow10(orders) == 10 * Pow10(38) by {
      Pow10Add(38, 1);
      assert Pow10(1) == 10;
    }
    assert Pow10(orders) == 2 * TWO_128 + raw;
    assert Pow10(orders) % TWO_128 == raw;
    QuotientBelow(raw, Pow10(orders));
    assert Quotient(raw, raw) == 1;
  }

  /** The divisor that a release build computes. */
  function Unit(tokenDecimals: U8, maxDecimals: U8): nat {
    Pow10(OrdersReduced(tokenDecimals, maxDecimals)) % TWO_128
  }

  /** The divisor is the power of ten that it should be exactly up to 38 orders of magnitude. */
  lemma UnitExactlyWhen(tokenDecimals: U8, maxDecimals: U8)
    ensures Unit(tokenDecimals, maxDecimals) == Pow10(OrdersReduced(tokenDecimals, maxDecimals))
            <==> OrdersReduced(tokenDecimals, maxDecimals) <= 38
  {
    Pow10FitsU128(OrdersReduced(tokenDecimals, maxDecimals));
  }

  /** The amount is the value in units, rounded down. */
  ghost predicate IsWorth(value: nat, tokenDecimals: U8, maxDecimals: U8, amount: nat) {
    var unit := Unit(tokenDecimals, maxDecimals);
    amount * unit <= value < amount * unit + unit
  }

  lemma NextUnit(a: nat, unit: nat)
    ensures (a + 1) * unit == a * unit + unit
  {
  }

  lemma WorthOnce(value: nat, unit: nat, a: nat, b: nat)
    requires a * unit <= value < a * unit + unit && b * unit <= value < b * unit + unit
    ensures a == b
  {
    NextUnit(a, unit);
    NextUnit(b, unit);
    if a < b {
      MulMonotone(a + 1, b, unit);
    } else if b < a {
      MulMonotone(b + 1, a, unit);
    }
  }

  lemma OneUnit(tokenDecimals: U8, maxDecimals: U8)
    requires tokenDecimals <= maxDecimals
    ensures Unit(tokenDecimals, maxDecimals) == 1
  {
    assert Pow10(0) == 1;
  }

  lemma QuotientIs(x: nat, d: nat)
    requires d > 0
    ensures Quotient(x, d) * d <= x < Quotient(x, d) * d + d
  {
  }

  lemma TruncateBounds(raw: U128, tokenDecimals: U8, maxDecimals: U8)
    requires TruncateValue(raw, tokenDecimals, maxDecimals).Some?
    ensures IsWorth(raw, tokenDecimals, maxDecimals, TruncateValue(raw, tokenDecimals, maxDecimals).value)
  {
    var unit := Unit(tokenDecimals, maxDecimals);
    if tokenDecimals <= maxDecimals {
      OneUnit(tokenDecimals, maxDecimals);
    } else {
      assert unit > 0 && TruncateValue(raw, tokenDecimals, maxDecimals).value == Quotient(raw, unit);
      QuotientIs(raw, unit);
    }
  }

  /** The scaling gives the value in units, rounded down, and panics when there is no unit or that does not fit. */
  lemma TruncateIsFloor(raw: U128, tokenDecimals: U8, maxDecimals: U8, amount: U64)
    ensures TruncateValue(raw, tokenDecimals, maxDecimals) == Some(amount)
            <==> IsWorth(raw, tokenDecimals, maxDecimals, amount)
  {
    if TruncateValue(raw, tokenDecimals, maxDecimals) == Some(amount) {
      TruncateBounds(raw, tokenDecimals, maxDecimals);
    }
    if IsWorth(raw, tokenDecimals, maxDecimals, amount) {
      WorthIsTruncated(raw, tokenDecimals, maxDecimals, amount);
    }
  }

  lemma WorthIsTruncated(raw: U128, tokenDecimals: U8, maxDecimals: U8, amount: U64)
    requires IsWorth(raw, tokenDecimals, maxDecimals, amount)
    ensures TruncateValue(raw, tokenDecimals, maxDecimals) == Some(amount)
  {
    var unit := Unit(tokenDecimals, maxDecimals);
    if tokenDecimals <= maxDecimals {
      OneUnit(tokenDecimals, maxDecimals);
    } else {
      QuotientIs(raw, unit);
      WorthOnce(raw, unit, Quotient(raw, unit), amount);
    }
  }

  /** The scaled amount never claims more than the deposit holds, and falls short by less than one unit. */
  lemma TruncateBacked(raw: U128, tokenDecimals: U8, maxDecimals: U8)
    requires OrdersReduced(tokenDecimals, maxDecimals) <= 38
    requires TruncateValue(raw, tokenDecimals, maxDecimals).Some?
    ensures var unit := Pow10(OrdersReduced(tokenDecimals, maxDecimals));
            var amount := TruncateValue(raw, tokenDecimals, maxDecimals).value;
            amount * unit <= raw < amount * unit + unit
  {
    TruncateExactlyWhen(raw, tokenDecimals, maxDecimals);
  }
}
