/** Integer models of the JavaScript number operations the dashboard relies on:
    `Math.round` of a ratio (as exact rational round-half-up), `Math.ceil` of a ratio,
    decimal printing of integers in template strings, and `Number(string)`. */
module JsNumbers {
  import opened Wrappers

  /** `Math.round(p / q)` for `q > 0`, computed exactly: the integer `floor(p/q + 1/2)`.
      The result is the unique integer within one half of `p / q` (halves round up). */
  function RoundDiv(p: int, q: int): (r: int)
    requires q > 0
    ensures q * (2 * r - 1) <= 2 * p < q * (2 * r + 1)
  {
    var x := 2 * p + q;
    var d := 2 * q;
    var r := x / d;
    var m := x % d;
    assert x == d * r + m && 0 <= m < d;
    assert q * (2 * r - 1) == d * r - q;
    assert q * (2 * r + 1) == d * r + q;
    r
  }

  /** Any integer within one half of `p / q` (halves rounding up) is `RoundDiv(p, q)`. */
  lemma RoundDivUnique(p: int, q: int, r: int)
    requires q > 0
    requires q * (2 * r - 1) <= 2 * p < q * (2 * r + 1)
    ensures r == RoundDiv(p, q)
  {
    var s := RoundDiv(p, q);
    if r < s {
      // q * (2r + 1) <= q * (2s - 1) since 2r + 1 <= 2s - 1
      MulMonotone(q, 2 * r + 1, 2 * s - 1);
    } else if r > s {
      MulMonotone(q, 2 * s + 1, 2 * r - 1);
    }
  }

  lemma MulMonotone(q: int, x: int, y: int)
    requires q >= 0 && x <= y
    ensures q * x <= q * y
  {
    assert q * y - q * x == q * (y - x);
  }

  /** Cancels a positive factor from a strict inequality. */
  lemma MulCancelLt(q: int, x: int, y: int)
    requires q > 0 && q * x < q * y
    ensures x < y
  {
    if x >= y {
      MulMonotone(q, y, x);
    }
  }

  /** `Math.round(p / q)` for any non-zero `q`: the sign is moved to the numerator,
      which leaves the rational `p / q` unchanged. */
  function RoundRatio(p: int, q: int): (r: int)
    requires q != 0
    ensures q > 0 ==> r == RoundDiv(p, q)
    ensures q < 0 ==> r == RoundDiv(-p, -q)
  {
    if q > 0 then RoundDiv(p, q) else RoundDiv(-p, -q)
  }

  /** A share rounded against a positive total stays within [0, scale] when
      the share is between 0 and the total. */
  lemma RoundDivScaledBounds(count: int, total: int, scale: nat)
    requires total > 0 && 0 <= count <= total
    ensures 0 <= RoundDiv(scale * count, total) <= scale
  {
    var r := RoundDiv(scale * count, total);
    // 0 <= 2 * scale * count < total * (2r + 1), so 2r + 1 > 0
    assert total * 0 < total * (2 * r + 1);
    MulCancelLt(total, 0, 2 * r + 1);
    // total * (2r - 1) <= 2 * scale * count <= 2 * scale * total < total * (2 scale + 1)
    MulMonotone(scale, count, total);
    assert scale * total == total * scale;
    MulSum3(total, scale, scale, 1);
    assert total * (2 * r - 1) < total * (2 * scale + 1);
    MulCancelLt(total, 2 * r - 1, 2 * scale + 1);
  }

  /** Three rounded shares of a whole: when the exact numerators add up to
      `whole * q`, the rounded values add up to `whole - 1`, `whole` or `whole + 1`. */
  lemma RoundedSharesSum(a: int, b: int, c: int, q: int, whole: int)
    requires q > 0
    requires a + b + c == whole * q
    ensures var s := RoundDiv(a, q) + RoundDiv(b, q) + RoundDiv(c, q);
            whole - 1 <= s <= whole + 1
  {
    var ra, rb, rc := RoundDiv(a, q), RoundDiv(b, q), RoundDiv(c, q);
    var s := ra + rb + rc;
    MulSum3(q, 2 * ra - 1, 2 * rb - 1, 2 * rc - 1);
    MulSum3(q, 2 * ra + 1, 2 * rb + 1, 2 * rc + 1);
    var twice := 2 * (a + b + c);
    assert q * (2 * s - 3) <= twice < q * (2 * s + 3);
    assert twice == q * (2 * whole) by {
      MulSum3(q, whole, whole, 0);
    }
    MulSum3(q, 2 * whole, 1, 0);
    MulCancelLt(q, 2 * s - 3, 2 * whole + 1);
    MulCancelLt(q, 2 * whole, 2 * s + 3);
  }

  /** Multiplication distributes over a sum of three terms. */
  lemma MulSum3(q: int, x: int, y: int, z: int)
    ensures q * x + q * y + q * z == q * (x + y + z)
  {
  }

  /** `Math.ceil(p / q)` for `q > 0`: the least integer `r` with `p <= r * q`. */
  function CeilDiv(p: int, q: int): (r: int)
    requires q > 0
    ensures p <= r * q < p + q
  {
    var r := (p + q - 1) / q;
    assert p + q - 1 == q * r + (p + q - 1) % q;
    r
  }

  // ---------------------------------------------------------------------------
  // Decimal text: template-string printing of integers and `Number(string)`.

  function DigitChar(d: nat): (c: char)
    requires d < 10
    ensures '0' <= c <= '9'
  {
    "0123456789"[d]
  }

  predicate IsDigit(c: char) {
    '0' <= c <= '9'
  }

  predicate AllDigits(s: string) {
    forall i :: 0 <= i < |s| ==> IsDigit(s[i])
  }

  /** The value of a run of decimal digits, most significant first. */
  function DigitsValue(s: string): nat
    requires AllDigits(s)
  {
    if |s| == 0 then 0
    else DigitsValue(s[..|s| - 1]) * 10 + (s[|s| - 1] as int - '0' as int)
  }

  /** Decimal text of a natural number, without leading zeros. */
  function NatToString(n: nat): (s: string)
    ensures |s| >= 1 && AllDigits(s)
    ensures DigitsValue(s) == n
  {
    if n < 10 then [DigitChar(n)]
    else
      var prefix := NatToString(n / 10);
      var s := prefix + [DigitChar(n % 10)];
      assert s[..|s| - 1] == prefix;
      s
  }

  /** `${i}` for an integer: a minus sign before the magnitude when negative. */
  function IntToString(i: int): (s: string)
    ensures |s| >= 1
    ensures '/' !in s
  {
    if i < 0 then "-" + NatToString(-i) else NatToString(i)
  }

  /** `Number(s)` restricted to the forms a dashboard string can hold: the empty
      string is 0, an optional sign followed by one or more decimal digits is that
      integer, and anything else is NaN (None). */
  function ParseNumber(s: string): Option<int> {
    if |s| == 0 then Some(0)
    else if s[0] == '-' && |s| > 1 && AllDigits(s[1..]) then Some(0 - DigitsValue(s[1..]) as int)
    else if s[0] == '+' && |s| > 1 && AllDigits(s[1..]) then Some(DigitsValue(s[1..]))
    else if AllDigits(s) then Some(DigitsValue(s))
    else None
  }

  /** Printing an integer and reading it back gives the integer. */
  lemma ParsePrinted(i: int)
    ensures ParseNumber(IntToString(i)) == Some(i)
  {
    if i < 0 {
      var s := IntToString(i);
      assert s[1..] == NatToString(-i);
    }
  }
}
