/** The few facts about multiplication and Euclidean division the proofs share. */
module Arith {
  lemma MulAtLeast(unit: int, x: int)
    requires unit > 0 && x >= 1
    ensures unit * x >= unit
  {
    assert unit * (x - 1) >= 0;
    assert unit * x == unit * (x - 1) + unit;
  }

  lemma MulDouble(a: int, p: int)
    ensures a * (2 * p) == (a + a) * p == 2 * (a * p)
  {
  }

  lemma DivNonnegative(a: int, unit: int)
    requires a >= 0 && unit > 0
    ensures a / unit >= 0
  {
    var q := a / unit;
    if q < 0 { MulAtLeast(unit, -q); }
  }

  lemma ModAtMost(a: int, unit: int)
    requires a >= 0 && unit > 0
    ensures a % unit <= a
  {
    DivNonnegative(a, unit);
    assert unit * (a / unit) >= 0;
  }

  lemma DivModUnique(a: int, unit: int, q: int, r: int)
    requires unit > 0 && 0 <= r < unit && a == unit * q + r
    ensures a / unit == q && a % unit == r
  {
    var q', r' := a / unit, a % unit;
    var d := q - q';
    assert unit * d == r' - r by {
      assert unit * d == unit * q - unit * q';
    }
    if d > 0 { MulAtLeast(unit, d); }
    if d < 0 { MulAtLeast(unit, -d); }
  }

  /** The remainder of an address inside the unit that contains `off`. */
  lemma ModInUnit(off: int, a: int, unit: int)
    requires unit > 0 && off - off % unit <= a < off - off % unit + unit
    ensures a - a % unit == off - off % unit
  {
    DivModUnique(a, unit, off / unit, a - (off - off % unit));
  }

  lemma ModShift(unit: int, q: int, j: int)
    requires unit > 0
    ensures (unit * q + j) % unit == j % unit
  {
    assert unit * q + j == unit * (q + j / unit) + j % unit by {
      assert unit * (q + j / unit) == unit * q + unit * (j / unit);
    }
    DivModUnique(unit * q + j, unit, q + j / unit, j % unit);
  }

  lemma MulMonotone(a: int, b: int, x: int)
    requires a <= b && x >= 0
    ensures a * x <= b * x && x * a <= x * b
  {
    assert (b - a) * x >= 0;
    assert (b - a) * x == b * x - a * x;
  }

  /** The unit around an address below `f` units ends below them. */
  lemma UnitBelow(r: int, unit: int, f: int)
    requires unit > 0 && 0 <= r < unit * f
    ensures 0 <= r - r % unit && r - r % unit + unit <= unit * f
  {
    ModAtMost(r, unit);
    var j := r / unit;
    if j < f {
      MulMonotone(j + 1, f, unit);
      assert unit * (j + 1) == unit * j + unit;
    } else {
      MulMonotone(f, j, unit);
    }
  }

  lemma MulAssociates(a: int, b: int, c: int)
    ensures (a * b) * c == a * (b * c)
  {
  }

  lemma UnitInWide(a: int, unit: int, x: int, f: int, r: int)
    requires unit > 0 && 0 <= r < unit * f && a == unit * x + r
    ensures unit * x <= a - a % unit && a - a % unit + unit <= unit * x + unit * f
  {
    ModShift(unit, x, r);
    UnitBelow(r, unit, f);
  }

  /** The unit around an address lies in the wider unit, of `f` units, around it. */
  lemma UnitInMultiple(a: int, unit: int, f: int, wide: int)
    requires unit > 0 && wide == unit * f > 0
    ensures a - a % wide <= a - a % unit && a - a % unit + unit <= a - a % wide + wide
  {
    var q, r := a / wide, a % wide;
    assert wide * q == unit * (f * q) by { MulAssociates(unit, f, q); }
    UnitInWide(a, unit, f * q, f, r);
  }

  lemma ModTwice(i: int, unit: int)
    requires unit > 0
    ensures i % (unit + unit) % unit == i % unit
  {
    var q, r := i / (unit + unit), i % (unit + unit);
    assert i == unit * (q + q) + r by {
      assert i == (unit + unit) * q + r;
      assert (unit + unit) * q == unit * q + unit * q == unit * (q + q);
    }
    ModShift(unit, q + q, r);
  }
}
