/** Floating point arithmetic as IEEE 754 rounds it: to the nearest number of the format, and to the one
    with the even significand halfway between two. Only numbers that are not negative are rounded here. */
module Rounding {
  import opened Binary

  // the least full significand, which is half of the number of significands: 2^23 and 2^52
  const SINGLE: nat := 0x80_0000
  const DOUBLE: nat := 0x10_0000_0000_0000

  // the nearest integer, the even one halfway between two
  function HalfEven(z: real): (n: int)
    ensures -0.5 <= n as real - z <= 0.5
  {
    var f := z.Floor;
    if z - f as real < 0.5 || (z - f as real == 0.5 && f % 2 == 0) then f else f + 1
  }

  function Multiple(m: int, u: real): real {
    m as real * u
  }

  // the nearest multiple of a unit
  function Nearest(y: real, u: real): real
    requires u > 0.0
  {
    Multiple(HalfEven(y / u), u)
  }

  // y rounded in a format with that least full significand. The unit of the last place is u for numbers
  // from least * u on, and half of it with every halving below that, down to the smallest exponent.
  function Rounded(y: real, u: real, least: nat, exponents: nat): real
    requires u > 0.0
    decreases exponents
  {
    if exponents > 0 && y < Multiple(least, u) then Rounded(y, u / 2.0, least, exponents - 1) else Nearest(y, u)
  }

  // Numbers up to 2, and numbers up to 2^16 and 2^32. The last bit weighs 2^-149 and 2^-1074 at least.
  function Single(y: real): real {
    Rounded(y, 1.0 / 8388608.0, SINGLE, 126)
  }

  function SingleProduct(y: real): real {
    Rounded(y, 1.0 / 256.0, SINGLE, 141)
  }

  function Double(y: real): real {
    Rounded(y, 1.0 / 4503599627370496.0, DOUBLE, 1022)
  }

  function DoubleProduct(y: real): real {
    Rounded(y, 1.0 / 2097152.0, DOUBLE, 1053)
  }

  lemma HalfEvenOrder(z: real, w: real)
    requires z <= w
    ensures HalfEven(z) <= HalfEven(w)
  {
  }

  lemma HalfEvenWhole(n: int)
    ensures HalfEven(n as real) == n
  {
  }

  lemma Times(a: real, b: real, u: real)
    requires u > 0.0 && a <= b
    ensures a * u <= b * u
  {
  }

  lemma Quotient(y: real, u: real)
    requires u > 0.0
    ensures (y / u) * u == y
  {
  }

  lemma QuotientOrder(y: real, w: real, u: real)
    requires u > 0.0 && y <= w
    ensures y / u <= w / u
  {
    Quotient(y, u);
    Quotient(w, u);
    Cancel(y / u, w / u, u);
  }

  lemma Cancel(a: real, b: real, u: real)
    requires u > 0.0 && a * u <= b * u
    ensures a <= b
  {
  }

  lemma QuotientOfMultiple(m: int, u: real)
    requires u > 0.0
    ensures Multiple(m, u) / u == m as real
  {
  }

  lemma MultipleOrder(m: int, n: int, u: real)
    requires u > 0.0 && m <= n
    ensures Multiple(m, u) <= Multiple(n, u)
  {
    Times(m as real, n as real, u);
  }

  lemma HalfUnit(m: int, u: real)
    ensures Multiple(m, u) == Multiple(2 * m, u / 2.0)
  {
  }

  lemma NearestError(y: real, u: real)
    requires u > 0.0
    ensures -u / 2.0 <= Nearest(y, u) - y <= u / 2.0
  {
    hide HalfEven;
    Quotient(y, u);
    WithinHalf(HalfEven(y / u) as real, y / u, HalfEven(y / u) as real - y / u, u, y);
  }

  lemma WithinHalf(a: real, b: real, d: real, u: real, y: real)
    requires u > 0.0 && a == b + d && -0.5 <= d <= 0.5 && b * u == y
    ensures -u / 2.0 <= a * u - y <= u / 2.0
  {
    HalfOf(d, u);
    Distribute(a, b, d, u);
  }

  lemma HalfOf(d: real, u: real)
    requires u > 0.0 && -0.5 <= d <= 0.5
    ensures -u / 2.0 <= d * u <= u / 2.0
  {
    assert d * u <= 0.5 * u;
    assert -0.5 * u <= d * u;
  }

  lemma Distribute(a: real, b: real, d: real, u: real)
    requires a == b + d
    ensures a * u == b * u + d * u
  {
  }

  lemma NearestExact(m: int, u: real)
    requires u > 0.0
    ensures Nearest(Multiple(m, u), u) == Multiple(m, u)
  {
    hide HalfEven, Multiple;
    QuotientOfMultiple(m, u);
    HalfEvenWhole(m);
  }

  lemma NearestOrder(y: real, w: real, u: real)
    requires u > 0.0 && y <= w
    ensures Nearest(y, u) <= Nearest(w, u)
  {
    hide HalfEven, Multiple;
    QuotientOrder(y, w, u);
    HalfEvenOrder(y / u, w / u);
    MultipleOrder(HalfEven(y / u), HalfEven(w / u), u);
  }

  lemma NearestNotNegative(y: real, u: real)
    requires u > 0.0 && y >= 0.0
    ensures HalfEven(y / u) >= 0
  {
    hide HalfEven;
    QuotientOrder(0.0, y, u);
    HalfEvenOrder(0.0, y / u);
    HalfEvenWhole(0);
  }

  lemma NearestScaled(y: real, u: real, c: real, v: real, w: real)
    requires u > 0.0 && c > 0.0 && v == c * y && w == c * u
    ensures w > 0.0 && Nearest(v, w) == c * Nearest(y, u)
  {
    hide HalfEven;
    SameQuotient(y, u, c);
    MultipleScaled(HalfEven(y / u), u, c);
  }

  lemma SameQuotient(y: real, u: real, c: real)
    requires u > 0.0 && c > 0.0
    ensures c * u > 0.0 && (c * y) / (c * u) == y / u
  {
    Quotient(y, u);
    var q := y / u;
    assert c * y == q * (c * u);
  }

  lemma MultipleScaled(m: int, u: real, c: real)
    ensures Multiple(m, c * u) == c * Multiple(m, u)
  {
  }

  lemma BelowScaled(y: real, u: real, c: real, v: real, w: real, m: int)
    requires c > 0.0 && v == c * y && w == c * u
    ensures y < Multiple(m, u) <==> v < Multiple(m, w)
  {
    MultipleScaled(m, u, c);
    SameOrder(y, Multiple(m, u), c);
  }

  lemma SameOrder(y: real, w: real, c: real)
    requires c > 0.0
    ensures y < w <==> c * y < c * w
  {
  }

  // the result is off by half a unit at most
  lemma {:induction false} RoundedError(y: real, u: real, least: nat, exponents: nat)
    requires u > 0.0
    ensures -u / 2.0 <= Rounded(y, u, least, exponents) - y <= u / 2.0
    decreases exponents
  {
    hide Nearest, Multiple;
    if exponents > 0 && y < Multiple(least, u) {
      RoundedError(y, u / 2.0, least, exponents - 1);
    } else {
      NearestError(y, u);
    }
  }

  // a number of the format stays what it is
  lemma {:induction false} RoundedExact(m: nat, u: real, least: nat, exponents: nat)
    requires u > 0.0
    ensures Rounded(Multiple(m, u), u, least, exponents) == Multiple(m, u)
    decreases exponents
  {
    hide Nearest, Multiple;
    if exponents > 0 && Multiple(m, u) < Multiple(least, u) {
      HalfUnit(m, u);
      RoundedExact(2 * m, u / 2.0, least, exponents - 1);
    } else {
      NearestExact(m, u);
    }
  }

  // Rounding does not go past a number of the format where this unit applies.
  lemma {:induction false} RoundedAtMost(y: real, u: real, least: nat, exponents: nat, m: nat)
    requires u > 0.0 && m >= least && y <= Multiple(m, u)
    ensures Rounded(y, u, least, exponents) <= Multiple(m, u)
    decreases exponents
  {
    hide Nearest, Multiple;
    if exponents > 0 && y < Multiple(least, u) {
      HalfUnit(least, u);
      RoundedAtMost(y, u / 2.0, least, exponents - 1, 2 * least);
      MultipleOrder(least, m, u);
    } else {
      NearestOrder(y, Multiple(m, u), u);
      NearestExact(m, u);
    }
  }

  lemma RoundedAtLeast(y: real, u: real, least: nat, exponents: nat, m: nat)
    requires u > 0.0 && m >= least && Multiple(m, u) <= y
    ensures Multiple(m, u) <= Rounded(y, u, least, exponents) == Nearest(y, u)
  {
    hide Nearest, Multiple;
    MultipleOrder(least, m, u);
    NearestOrder(Multiple(m, u), y, u);
    NearestExact(m, u);
  }

  // Rounding keeps the order.
  lemma {:induction false} RoundedOrder(y: real, w: real, u: real, least: nat, exponents: nat)
    requires u > 0.0 && y <= w
    ensures Rounded(y, u, least, exponents) <= Rounded(w, u, least, exponents)
    decreases exponents
  {
    hide Nearest, Multiple;
    if exponents > 0 && w < Multiple(least, u) {
      RoundedOrder(y, w, u / 2.0, least, exponents - 1);
    } else if exponents > 0 && y < Multiple(least, u) {
      RoundedAtMost(y, u, least, exponents, least);
      RoundedAtLeast(w, u, least, exponents, least);
    } else {
      NearestOrder(y, w, u);
    }
  }

  lemma RoundedNotNegative(y: real, u: real, least: nat, exponents: nat)
    requires u > 0.0 && y >= 0.0
    ensures Rounded(y, u, least, exponents) >= 0.0
  {
    hide Rounded;
    RoundedExact(0, u, least, exponents);
    RoundedOrder(0.0, y, u, least, exponents);
  }

  // Rounding a second time, also with more exponents, changes nothing.
  lemma {:induction false} RoundedTwice(y: real, u: real, least: nat, exponents: nat, more: nat)
    requires u > 0.0 && y >= 0.0 && more >= exponents
    ensures var r := Rounded(y, u, least, exponents);
            Rounded(r, u, least, more) == r
    decreases exponents
  {
    hide Multiple, HalfEven;
    if exponents > 0 && y < Multiple(least, u) {
      hide Nearest;
      HalfUnit(least, u);
      RoundedAtMost(y, u / 2.0, least, exponents - 1, 2 * least);
      if Rounded(y, u, least, exponents) == Multiple(least, u) {
        RoundedExact(least, u, least, more);
      } else {
        RoundedTwice(y, u / 2.0, least, exponents - 1, more - 1);
      }
    } else {
      NearestNotNegative(y, u);
      RoundedExact(HalfEven(y / u), u, least, more);
    }
  }

  // Scaling the unit along with the number scales the result.
  lemma {:induction false} RoundedScaled(y: real, u: real, c: real, v: real, w: real, least: nat, exponents: nat)
    requires u > 0.0 && c > 0.0 && v == c * y && w == c * u
    ensures w > 0.0 && Rounded(v, w, least, exponents) == c * Rounded(y, u, least, exponents)
    decreases exponents
  {
    hide Nearest, Multiple;
    BelowScaled(y, u, c, v, w, least);
    NearestScaled(y, u, c, v, w);
    if exponents > 0 && y < Multiple(least, u) {
      HalfScaled(u, c);
      RoundedScaled(y, u / 2.0, c, v, w / 2.0, least, exponents - 1);
    }
  }

  lemma HalfScaled(u: real, c: real)
    ensures c * (u / 2.0) == (c * u) / 2.0
  {
  }

  // the numbers of a format: multiples of the unit of their place
  ghost predicate Representable(z: real, u: real, least: nat, exponents: nat)
    decreases exponents
  {
    if exponents > 0 && z < Multiple(least, u) then
      Representable(z, u / 2.0, least, exponents - 1)
    else
      exists m: int :: z == Multiple(m, u)
  }

  function Distance(y: real, z: real): real {
    if y <= z then z - y else y - z
  }

  lemma {:induction false} RoundedIsRepresentable(y: real, u: real, least: nat, exponents: nat)
    requires u > 0.0
    ensures Representable(Rounded(y, u, least, exponents), u, least, exponents)
    decreases exponents
  {
    hide Multiple, HalfEven;
    if exponents > 0 && y < Multiple(least, u) {
      hide Nearest;
      HalfUnit(least, u);
      RoundedAtMost(y, u / 2.0, least, exponents - 1, 2 * least);
      RoundedIsRepresentable(y, u / 2.0, least, exponents - 1);
    } else if exponents > 0 {
      RoundedAtLeast(y, u, least, exponents, least);
    }
  }

  // No number of the format is nearer.
  lemma {:induction false} RoundedIsNearest(y: real, u: real, least: nat, exponents: nat, z: real)
    requires u > 0.0 && Representable(z, u, least, exponents)
    ensures Distance(Rounded(y, u, least, exponents), y) <= Distance(z, y)
    decreases exponents
  {
    hide Multiple, Nearest, HalfEven;
    var edge := Multiple(least, u);
    if exponents > 0 && y < edge {
      HalfUnit(least, u);
      MultipleOrder(least, 2 * least, u / 2.0);
      RoundedIsNearest(y, u / 2.0, least, exponents - 1, if z < edge then z else edge);
    } else if exponents > 0 && z < edge {
      RoundedAtLeast(y, u, least, exponents, least);
      NearestIsNearest(y, u, least);
    } else {
      var m :| z == Multiple(m, u);
      NearestIsNearest(y, u, m);
    }
  }

  lemma NearestIsNearest(y: real, u: real, m: int)
    requires u > 0.0
    ensures Distance(Nearest(y, u), y) <= Distance(Multiple(m, u), y)
  {
    hide HalfEven, Distance;
    var q := y / u;
    Quotient(y, u);
    HalfEvenIsNearest(q, m);
    DistanceTimes(HalfEven(q) as real, q, u, Nearest(y, u), y);
    DistanceTimes(m as real, q, u, Multiple(m, u), y);
    Times(Distance(HalfEven(q) as real, q), Distance(m as real, q), u);
  }

  lemma HalfEvenIsNearest(q: real, m: int)
    ensures Distance(HalfEven(q) as real, q) <= Distance(m as real, q)
  {
    hide HalfEven;
    var n := HalfEven(q);
    if m < n {
      assert m as real <= n as real - 1.0;
    } else if m > n {
      assert m as real >= n as real + 1.0;
    }
  }

  lemma DistanceTimes(a: real, b: real, u: real, v: real, w: real)
    requires u > 0.0 && v == a * u && w == b * u
    ensures Distance(v, w) == Distance(a, b) * u
  {
    if a <= b {
      Times(a, b, u);
      Distribute(b, a, b - a, u);
    } else {
      Times(b, a, u);
      Distribute(a, b, a - b, u);
    }
  }

  // the unit after so many halvings
  function Halved(u: real, n: nat): (v: real)
    ensures v * Power2(n) as real == u
    decreases n
  {
    if n == 0 then u else Halved(u / 2.0, n - 1)
  }

  lemma {:induction false} HalvedAtMost(u: real, n: nat)
    requires u > 0.0 && n > 0
    ensures 0.0 < Halved(u, n) <= u / 2.0
    decreases n
  {
    if n > 1 {
      HalvedAtMost(u / 2.0, n - 1);
    }
  }

  // Every significand is exact at every exponent there is.
  lemma {:induction false} RoundedFine(m: nat, j: nat, u: real, least: nat, exponents: nat)
    requires u > 0.0 && j <= exponents && m <= 2 * least
    ensures Rounded(Multiple(m, Halved(u, j)), u, least, exponents) == Multiple(m, Halved(u, j))
    decreases exponents
  {
    hide Nearest, Multiple;
    var y := Multiple(m, Halved(u, j));
    if j == 0 {
      RoundedExact(m, u, least, exponents);
    } else if y < Multiple(least, u) {
      RoundedFine(m, j - 1, u / 2.0, least, exponents - 1);
    } else {
      HalvedAtMost(u, j);
      AtTheEdge(m, Halved(u, j), u, least);
      RoundedExact(least, u, least, exponents);
    }
  }

  lemma AtTheEdge(m: nat, v: real, u: real, least: nat)
    requires 0.0 < v <= u / 2.0 && m <= 2 * least
    ensures Multiple(m, v) <= Multiple(least, u)
  {
    HalfUnit(least, u);
    MultipleOrder(m, 2 * least, v);
    if least > 0 {
      Times(v, u / 2.0, (2 * least) as real);
    }
  }

  // Nothing finer than the smallest unit is left.
  lemma {:induction false} RoundedCoarse(y: real, u: real, least: nat, exponents: nat) returns (m: int)
    requires u > 0.0
    ensures Rounded(y, u, least, exponents) == Multiple(m, Halved(u, exponents))
    decreases exponents
  {
    hide Multiple, HalfEven;
    if exponents > 0 && y < Multiple(least, u) {
      m := RoundedCoarse(y, u / 2.0, least, exponents - 1);
    } else {
      var p, v := Power2(exponents), Halved(u, exponents);
      m := HalfEven(y / u) * p;
      ManyUnits(HalfEven(y / u), p, v, u);
    }
  }

  lemma ManyUnits(n: int, p: nat, v: real, u: real)
    requires v * p as real == u
    ensures Multiple(n, u) == Multiple(n * p, v)
  {
    assert (n * p) as real == n as real * p as real;
  }

  // the significand of a number of the format is even
  ghost predicate EvenPlace(z: real, u: real, least: nat, exponents: nat)
    decreases exponents
  {
    if exponents > 0 && z < Multiple(least, u) then
      EvenPlace(z, u / 2.0, least, exponents - 1)
    else
      exists m: int :: z == Multiple(m, u) && m % 2 == 0
  }

  // Where another number of the format is just as near, the result is the one with the even significand.
  lemma {:induction false} RoundedTie(y: real, u: real, least: nat, exponents: nat, z: real)
    requires u > 0.0 && least % 2 == 0 && Representable(z, u, least, exponents)
    requires z != Rounded(y, u, least, exponents)
    requires Distance(z, y) == Distance(Rounded(y, u, least, exponents), y)
    ensures EvenPlace(Rounded(y, u, least, exponents), u, least, exponents) && !EvenPlace(z, u, least, exponents)
    decreases exponents
  {
    hide Multiple, Nearest, HalfEven;
    var edge, r := Multiple(least, u), Rounded(y, u, least, exponents);
    if exponents > 0 && y < edge {
      TieBelowEdge(y, u, least, exponents, z);
    } else {
      if exponents > 0 {
        RoundedAtLeast(y, u, least, exponents, least);
      }
      if exponents > 0 && z < edge {
        NearestIsNearest(y, u, least);
      } else {
        var m :| z == Multiple(m, u);
        NearestTie(y, u, m);
      }
    }
  }

  lemma {:induction false} TieBelowEdge(y: real, u: real, least: nat, exponents: nat, z: real)
    requires u > 0.0 && least % 2 == 0 && Representable(z, u, least, exponents)
    requires exponents > 0 && y < Multiple(least, u)
    requires z != Rounded(y, u, least, exponents)
    requires Distance(z, y) == Distance(Rounded(y, u, least, exponents), y)
    ensures EvenPlace(Rounded(y, u, least, exponents), u, least, exponents) && !EvenPlace(z, u, least, exponents)
    decreases exponents, 0
  {
    hide Multiple, Nearest, HalfEven;
    var edge, r := Multiple(least, u), Rounded(y, u, least, exponents);
    HalfUnit(least, u);
    MultipleOrder(least, 2 * least, u / 2.0);
    RoundedAtMost(y, u / 2.0, least, exponents - 1, 2 * least);
    RoundedIsNearest(y, u / 2.0, least, exponents - 1, edge);
    assert EvenPlace(edge, u / 2.0, least, exponents - 1) by {
      assert edge == Multiple(2 * least, u / 2.0) && 2 * least % 2 == 0;
    }
    RoundedTie(y, u / 2.0, least, exponents - 1, z);
    if r == edge {
      assert r == Multiple(least, u) && least % 2 == 0;
    }
  }

  lemma NearestTie(y: real, u: real, m: int)
    requires u > 0.0 && Multiple(m, u) != Nearest(y, u)
    requires Distance(Multiple(m, u), y) == Distance(Nearest(y, u), y)
    ensures exists n: int :: Nearest(y, u) == Multiple(n, u) && n % 2 == 0
    ensures !exists n: int :: Multiple(m, u) == Multiple(n, u) && n % 2 == 0
  {
    hide HalfEven, Distance;
    var q, n := y / u, HalfEven(y / u);
    Quotient(y, u);
    DistanceTimes(n as real, q, u, Nearest(y, u), y);
    DistanceTimes(m as real, q, u, Multiple(m, u), y);
    Cancel(Distance(m as real, q), Distance(n as real, q), u);
    Cancel(Distance(n as real, q), Distance(m as real, q), u);
    HalfEvenTie(q, m);
    assert Nearest(y, u) == Multiple(n, u);
    forall k: int | Multiple(m, u) == Multiple(k, u)
      ensures k == m
    {
      Cancel(m as real, k as real, u);
      Cancel(k as real, m as real, u);
    }
  }

  lemma HalfEvenTie(q: real, m: int)
    requires m != HalfEven(q) && Distance(m as real, q) == Distance(HalfEven(q) as real, q)
    ensures HalfEven(q) % 2 == 0 && m % 2 != 0
  {
    var n := HalfEven(q);
    HalfEvenIsNearest(q, n);
    assert m as real + n as real == 2.0 * q;
    assert m - n == 1 || m - n == -1;
  }
}
