/** Human-readable byte sizes (core/units.go, internal/units.go): below
    1024 the exact count; otherwise the count divided by the largest power
    of 1024 that leaves a quotient of at least 1, with the matching unit
    letter. The division printed as `%.1f` is kept as numerator and
    divisor; the formatting itself is not modelled. */
module Units {
  import opened Base

  /** 1024 to the power `e`. */
  function Pow1024(e: nat): (r: nat)
    ensures r >= 1
  {
    if e == 0 then 1 else 1024 * Pow1024(e - 1)
  }

  /** What String prints: the exact count with its suffix, or `num / div`
      to one decimal place immediately followed by `suffix` (which carries
      any separating space). */
  datatype Shown = Exact(text: string) | Scaled(num: int, div: int, exp: nat, suffix: string)

  /** The unit letters, from KiB up. */
  const Letters: string := "KMGTPE"

  /** The loop both String methods run on a count of at least 1024: `exp`
      is the number of extra divisions by 1024 and `div` is 1024^(exp+1),
      the largest power of 1024 not above `b`. Every count below 2^64
      needs at most five extra divisions, so the letter index is in range
      and `div` stays below 2^63 (an int64). */
  method Scale(b: int) returns (div: int, exp: nat)
    requires 1024 <= b < TWO64
    ensures div == Pow1024(exp + 1) && 1 <= b / div < 1024
    ensures exp <= 5 && IsInt64(div)
  {
    div, exp := 1024, 0;
    var n := b / 1024;
    while n >= 1024
      invariant div == Pow1024(exp + 1) && n == b / div && n >= 1
      invariant exp <= 5
      decreases n
    {
      DivDiv(b, div);
      div := div * 1024;
      exp := exp + 1;
      n := n / 1024;
      PowBound(b, exp + 1);
    }
    PowBound(b, exp + 1);
  }

  /** A power of 1024 that fits in a count below 2^64 is at most 1024^6. */
  lemma PowBound(b: int, e: nat)
    requires 0 <= b < TWO64 && 1 <= b / Pow1024(e)
    ensures e <= 6 && Pow1024(e) < TWO63
  {
    if e > 6 {
      QuotientZero(b, e);
      assert false;
    }
    PowMonotone(e, 6);
    assert Pow1024(6) == 0x1000_0000_0000_0000;
  }

  /** Every count below 2^64 is below 1024^7, so dividing it by 1024^7 or
      more leaves nothing. */
  lemma QuotientZero(b: int, e: nat)
    requires 0 <= b < TWO64 && e >= 7
    ensures b / Pow1024(e) == 0
  {
    PowMonotone(7, e);
    assert Pow1024(7) == 0x40_0000_0000_0000_0000;
    DivUnique(b, Pow1024(e), 0, b);
  }

  lemma {:induction false} PowMonotone(a: nat, b: nat)
    requires a <= b
    ensures Pow1024(a) <= Pow1024(b)
    decreases b
  {
    if a < b {
      PowMonotone(a, b - 1);
    }
  }

  /** A positive multiple of `m` is at least `m`. */
  lemma {:induction false} MulAtLeast(m: int, k: int)
    requires m > 0 && k >= 1
    ensures m * k >= m
    decreases k
  {
    if k > 1 {
      MulAtLeast(m, k - 1);
      assert m * k == m * (k - 1) + m;
    }
  }

  /** Dividing by `d` and then by 1024 is dividing by `d * 1024`. */
  lemma DivDiv(b: int, d: int)
    requires b >= 0 && d > 0
    ensures b / (d * 1024) == (b / d) / 1024
  {
    var q, r := b / d, b % d;
    var q2, r2 := q / 1024, q % 1024;
    assert b == d * q + r;
    assert q == 1024 * q2 + r2;
    assert d * q == (d * 1024) * q2 + d * r2 by {
      assert d * q == d * (1024 * q2 + r2);
    }
    assert d * r2 + d * (1023 - r2) == d * 1023;
    if r2 < 1023 {
      MulAtLeast(d, 1023 - r2);
    }
    assert d * r2 >= 0 by {
      if r2 > 0 {
        MulAtLeast(d, r2);
      }
    }
    DivUnique(b, d * 1024, q2, d * r2 + r);
  }

  /** Euclidean division has one quotient. */
  lemma DivUnique(b: int, m: int, q: int, s: int)
    requires m > 0 && 0 <= s < m && b == m * q + s
    ensures b / m == q
  {
    var q', s' := b / m, b % m;
    assert b == m * q' + s';
    if q > q' {
      assert m * q - m * q' == m * (q - q');
      MulAtLeast(m, q - q');
    } else if q < q' {
      assert m * q' - m * q == m * (q' - q);
      MulAtLeast(m, q' - q);
    }
  }

  /** ByteSize.String of the `core` package revision (a uint64): below 1024
      the count and " B"; otherwise the scaled count, a space, and the
      letter of "KMGTPE" at `exp` followed by "iB". */
  method UnsignedString(b: int) returns (r: Shown)
    requires IsUint64(b)
    ensures r.Exact? <==> b < 1024
    ensures r.Exact? ==> r.text == Decimal(b) + " B"
    ensures r.Scaled? ==>
      && r.exp <= 5 && r.div == Pow1024(r.exp + 1) && r.num == b && 1 <= b / r.div < 1024
      && r.suffix == " " + [Letters[r.exp]] + "iB"
  {
    if b < 1024 {
      return Exact(Decimal(b) + " B");
    }
    var div, exp := Scale(b);
    return Scaled(b, div, exp, " " + [Letters[exp]] + "iB");
  }

  /** ByteSize.String of the `internal` package (an int64): below 1024,
      negative counts included, the count and "B"; otherwise the scaled count
      and the bare letter of "KMGTPE" at `exp`. */
  method SignedString(b: int) returns (r: Shown)
    requires IsInt64(b)
    ensures r.Exact? <==> b < 1024
    ensures r.Exact? ==> r.text == Decimal(b) + "B"
    ensures r.Scaled? ==>
      && r.exp <= 5 && r.div == Pow1024(r.exp + 1) && r.num == b && 1 <= b / r.div < 1024
      && r.suffix == [Letters[r.exp]]
  {
    if b < 1024 {
      return Exact(Decimal(b) + "B");
    }
    var div, exp := Scale(b);
    return Scaled(b, div, exp, [Letters[exp]]);
  }

  /** The scale is the only one that fits: a power of 1024 that leaves a
      quotient between 1 and 1023 is 1024^(exp+1) for exactly one exp. */
  lemma ScaleUnique(b: int, e1: nat, e2: nat)
    requires b >= 0
    requires 1 <= b / Pow1024(e1 + 1) < 1024 && 1 <= b / Pow1024(e2 + 1) < 1024
    ensures e1 == e2
  {
    if e1 < e2 {
      ScaleOrder(b, e1, e2);
      assert false;
    } else if e2 < e1 {
      ScaleOrder(b, e2, e1);
      assert false;
    }
  }

  /** A quotient of at least 1 by a larger power means a quotient of at
      least 1024 by a smaller one. */
  lemma ScaleOrder(b: int, lo: nat, hi: nat)
    requires b >= 0 && lo < hi && 1 <= b / Pow1024(hi + 1)
    ensures b / Pow1024(lo + 1) >= 1024
  {
    var p := Pow1024(lo + 1);
    PowMonotone(lo + 2, hi + 1);
    assert Pow1024(lo + 2) == p * 1024;
    var P := Pow1024(hi + 1);
    assert b >= P by {
      if b < P {
        DivUnique(b, P, 0, b);
      }
    }
    DivDiv(b, p);
    var q := b / (p * 1024);
    assert b == (p * 1024) * q + b % (p * 1024);
    assert q >= 1 by {
      if q < 1 {
        DivUnique(b, p * 1024, 0, b);
      }
    }
  }
}
