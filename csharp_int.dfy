/** C#'s integer division, which truncates toward zero.

    Dafny's `/` on `int` is Euclidean (the remainder is never negative), so the
    surface code's `/` is modelled by `Quot` below, whose contract is the
    definition of truncating division: the quotient times the divisor has the
    sign of the dividend and falls short of it by less than one divisor. */
module CSharpInt {

  function Abs(a: int): nat
  {
    if a < 0 then -a else a
  }

  /** `a / b` as C# computes it for `int` operands (no overflow): the quotient
      of the magnitudes, negated when the signs differ. */
  function Quot(a: int, b: int): (q: int)
    requires b != 0
    ensures Abs(q * b) <= Abs(a) < Abs(q * b) + Abs(b)
    ensures q * b == 0 || (q * b < 0 <==> a < 0)
    ensures a >= 0 && b > 0 ==> q == a / b
  {
    var m := Abs(a) / Abs(b);
    QuotientOfMagnitudes(Abs(a), Abs(b));
    NegatedProduct(m, Abs(b));
    if (a < 0) == (b < 0) then m else -m
  }

  /** The remainder `a - Quot(a, b) * b` is smaller than the divisor in
      magnitude. */
  lemma QuotRemainder(a: int, b: int)
    requires b != 0
    ensures Abs(Quot(a, b) * b - a) < Abs(b)
  {
    var p := Quot(a, b) * b;
    assert Abs(p) <= Abs(a) < Abs(p) + Abs(b);
    assert p == 0 || (p < 0 <==> a < 0);
  }

  lemma QuotientOfMagnitudes(a: nat, b: nat)
    requires b > 0
    ensures a / b >= 0
    ensures (a / b) * b <= a < (a / b) * b + b
  {
  }

  lemma NegatedProduct(m: int, c: int)
    requires 0 <= m && 0 <= c
    ensures m * -c == -(m * c) && -m * c == -(m * c) && -m * -c == m * c
    ensures m * c >= 0
  {
  }

  /** Truncating `a * num / den` lies between 0 and `a` whenever `num / den`
      is a fraction in [0, 1]: the interpolation step of line clipping never
      leaves the segment's span. */
  lemma QuotScaleBetween(a: int, num: int, den: int)
    requires den != 0
    requires 0 <= num <= den || den <= num <= 0
    ensures var q := Quot(a * num, den); (0 <= q <= a) || (a <= q <= 0)
  {
    var p := a * num;
    var q := Quot(p, den);
    assert Abs(q) <= Abs(a) by {
      assert Abs(p) <= Abs(a) * Abs(den) by {
        ProductAbs(a, num);
        MulMonotone(Abs(a), Abs(num), Abs(den));
      }
      assert Abs(q) * Abs(den) <= Abs(a) * Abs(den) by { ProductAbs(q, den); }
      MulLeCancel(Abs(q), Abs(a), Abs(den));
    }
    if q != 0 {
      assert q * den != 0 by { SignOfProduct(q, den); }
      assert (q * den < 0) == (p < 0);
      assert p != 0 by {
        ProductAbs(q, den);
        MulMonotone(Abs(den), 1, Abs(q));
      }
      SignOfProduct(q, den);
      SignOfProduct(a, num);
    }
  }

  /** The fixed-point step of the line rasteriser: truncating `d * 8192 / l`
      with `|d| <= l` has the sign of `d`, magnitude at most 8192, and `l` of
      them together never overshoot `d * 8192`. */
  lemma SlopeBounds(d: int, l: int)
    requires 0 < l && Abs(d) <= l
    ensures var s := Quot(d * 8192, l);
      && Abs(s) <= 8192
      && (if d >= 0 then 0 <= s && s * l <= d * 8192 else s <= 0 && d * 8192 <= s * l)
  {
    SlopeMagnitude(d, l);
    SlopeSign(d, l);
  }

  lemma SlopeMagnitude(d: int, l: int)
    requires 0 < l && Abs(d) <= l
    ensures Abs(Quot(d * 8192, l)) <= 8192
  {
    var s := Quot(d * 8192, l);
    assert Abs(s) * l <= 8192 * l by {
      ProductAbs(s, l);
      ProductAbs(d, 8192);
      MulMonotone(8192, Abs(d), l);
    }
    MulLeCancel(Abs(s), 8192, l);
  }

  lemma SlopeSign(d: int, l: int)
    requires 0 < l
    ensures var s := Quot(d * 8192, l);
      if d >= 0 then 0 <= s && s * l <= d * 8192 else s <= 0 && d * 8192 <= s * l
  {
    var a := d * 8192;
    var s := Quot(a, l);
    var p := s * l;
    assert d >= 0 <==> a >= 0;
    assert Abs(p) <= Abs(a);
    assert p == 0 || (p < 0 <==> a < 0);
    SignOfProduct(s, l);
  }

  /** For `0 <= i <= l`, `i * s` lies between 0 and `l * s`. */
  lemma ScaledBetween(s: int, i: int, l: int)
    requires 0 <= i <= l
    ensures if s >= 0 then 0 <= i * s <= l * s else l * s <= i * s <= 0
  {
    if s >= 0 {
      MulMonotone(s, i, l);
    } else {
      MulMonotone(-s, i, l);
    }
  }

  lemma ProductAbs(a: int, b: int)
    ensures Abs(a * b) == Abs(a) * Abs(b)
  {
  }

  lemma MulMonotone(k: nat, a: int, b: int)
    requires a <= b
    ensures k * a <= k * b
  {
  }

  lemma MulLeCancel(a: nat, b: nat, k: nat)
    requires 0 < k && a * k <= b * k
    ensures a <= b
  {
    if a > b {
      MulMonotone(k, b + 1, a);
    }
  }

  lemma SignOfProduct(a: int, b: int)
    ensures a * b > 0 <==> (a > 0 && b > 0) || (a < 0 && b < 0)
    ensures a * b < 0 <==> (a > 0 && b < 0) || (a < 0 && b > 0)
  {
    if a > 0 && b > 0 {
      MulMonotone(a, 1, b);
    } else if a < 0 && b < 0 {
      MulMonotone(-a, 1, -b);
    } else if a > 0 && b < 0 {
      MulMonotone(a, 1, -b);
    } else if a < 0 && b > 0 {
      MulMonotone(-a, 1, b);
    }
  }
}
