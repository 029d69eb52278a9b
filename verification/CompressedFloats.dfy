/** Numbers between -1 and 1 in two or four bytes. A number is a real here, and every operation on it is
    rounded once, in the format the original computes in. */
module CompressedFloats {
  import opened Bytes
  import opened BitStreams
  import opened CompressedInts
  import opened NativeValues
  import opened Rounding

  const FLOAT_SCALE: real := 32767.5
  const DOUBLE_SCALE: real := 2147483648.0

  // 1 - 2^-53: the doubles below it end with 1 - 2^-52
  const DOUBLE_LIMIT: real := 9007199254740991.0 / 9007199254740992.0

  function Clamp(x: real): (y: real)
    ensures -1.0 <= y <= 1.0 && (-1.0 <= x <= 1.0 ==> y == x)
  {
    if x < -1.0 then -1.0 else if x > 1.0 then 1.0 else x
  }

  // the step of the scale a number is sent as
  function FloatStep(x: real): (n: nat)
    ensures n < 0x1_0000
  {
    FloatFits(x);
    SingleProduct(Single(Clamp(x) + 1.0) * FLOAT_SCALE).Floor
  }

  function DoubleStep(x: real): (n: nat) {
    DoubleNotNegative(x);
    DoubleProduct(Double(Clamp(x) + 1.0) * DOUBLE_SCALE).Floor
  }

  // the number a step is read as; the differences are negative below the middle
  function FloatBack(n: nat): real {
    Signed(Single(n as real / FLOAT_SCALE) - 1.0)
  }

  function Signed(y: real): real {
    if y < 0.0 then -Single(-y) else Single(y)
  }

  function DoubleBack(n: nat): real {
    SignedDouble(Double(n as real / DOUBLE_SCALE) - 1.0)
  }

  function SignedDouble(y: real): real {
    if y < 0.0 then -Double(-y) else Double(y)
  }

  // The sum stays up to 2 and the product up to 65535: the float form always fits two bytes.
  lemma FloatFits(x: real)
    ensures 0.0 <= Single(Clamp(x) + 1.0) <= 2.0
    ensures 0.0 <= SingleProduct(Single(Clamp(x) + 1.0) * FLOAT_SCALE) <= 65535.0
  {
    hide Rounded;
    var y, u, v := Clamp(x) + 1.0, 1.0 / 8388608.0, 1.0 / 256.0;
    RoundedNotNegative(y, u, SINGLE, 126);
    assert Multiple(2 * SINGLE, u) == 2.0;
    RoundedAtMost(y, u, SINGLE, 126, 2 * SINGLE);
    RoundedNotNegative(Single(y) * FLOAT_SCALE, v, SINGLE, 141);
    assert Multiple(16776960, v) == 65535.0;
    RoundedAtMost(Single(y) * FLOAT_SCALE, v, SINGLE, 141, 16776960);
  }

  lemma DoubleNotNegative(x: real)
    ensures 0.0 <= Double(Clamp(x) + 1.0) <= 2.0
    ensures 0.0 <= DoubleProduct(Double(Clamp(x) + 1.0) * DOUBLE_SCALE)
  {
    hide Rounded;
    var y, u, v := Clamp(x) + 1.0, 1.0 / 4503599627370496.0, 1.0 / 2097152.0;
    RoundedNotNegative(y, u, DOUBLE, 1022);
    assert Multiple(2 * DOUBLE, u) == 2.0;
    RoundedAtMost(y, u, DOUBLE, 1022, 2 * DOUBLE);
    RoundedNotNegative(Double(y) * DOUBLE_SCALE, v, DOUBLE, 1053);
  }

  // The formats have every significand at every exponent: 24 bits and a last bit of 2^-149 or more, 53 bits and a
  // last bit of 2^-1074 or more.
  lemma SingleNumbers(m: nat, j: nat)
    requires m <= 0x100_0000
    ensures j <= 126 ==> Single(Multiple(m, Halved(1.0 / 8388608.0, j))) == Multiple(m, Halved(1.0 / 8388608.0, j))
    ensures j <= 141 ==> SingleProduct(Multiple(m, Halved(1.0 / 256.0, j))) == Multiple(m, Halved(1.0 / 256.0, j))
  {
    hide Rounded, Multiple, Halved;
    if j <= 126 {
      RoundedFine(m, j, 1.0 / 8388608.0, SINGLE, 126);
    }
    if j <= 141 {
      RoundedFine(m, j, 1.0 / 256.0, SINGLE, 141);
    }
  }

  lemma DoubleNumbers(m: nat, j: nat)
    requires m <= 0x20_0000_0000_0000
    ensures var u, v := Halved(1.0 / 4503599627370496.0, j), Halved(1.0 / 2097152.0, j);
            && (j <= 1022 ==> Double(Multiple(m, u)) == Multiple(m, u))
            && (j <= 1053 ==> DoubleProduct(Multiple(m, v)) == Multiple(m, v))
  {
    hide Rounded, Multiple, Halved;
    if j <= 1022 {
      RoundedFine(m, j, 1.0 / 4503599627370496.0, DOUBLE, 1022);
    }
    if j <= 1053 {
      RoundedFine(m, j, 1.0 / 2097152.0, DOUBLE, 1053);
    }
  }

  // Nothing is finer than that.
  lemma SmallestSingle(y: real) returns (m: int, n: int)
    ensures Single(y) == Multiple(m, Halved(1.0 / 8388608.0, 126))
    ensures SingleProduct(y) == Multiple(n, Halved(1.0 / 256.0, 141))
  {
    hide Rounded, Multiple, Halved;
    m := RoundedCoarse(y, 1.0 / 8388608.0, SINGLE, 126);
    n := RoundedCoarse(y, 1.0 / 256.0, SINGLE, 141);
  }

  lemma SmallestDouble(y: real) returns (m: int, n: int)
    ensures Double(y) == Multiple(m, Halved(1.0 / 4503599627370496.0, 1022))
    ensures DoubleProduct(y) == Multiple(n, Halved(1.0 / 2097152.0, 1053))
  {
    hide Rounded, Multiple, Halved;
    m := RoundedCoarse(y, 1.0 / 4503599627370496.0, DOUBLE, 1022);
    n := RoundedCoarse(y, 1.0 / 2097152.0, DOUBLE, 1053);
  }

  // The step is off the exact one by less than a 256th of a step, in either direction, before it is cut.
  lemma FloatError(x: real)
    ensures FloatStep(x) as real < (Clamp(x) + 1.0) * FLOAT_SCALE + 1.0 / 256.0
    ensures (Clamp(x) + 1.0) * FLOAT_SCALE < FloatStep(x) as real + 1.0 + 1.0 / 256.0
  {
    hide Rounded;
    var y := Clamp(x) + 1.0;
    RoundedError(y, 1.0 / 8388608.0, SINGLE, 126);
    RoundedError(Single(y) * FLOAT_SCALE, 1.0 / 256.0, SINGLE, 141);
  }

  // A larger number is never sent as a smaller step.
  lemma FloatOrder(x: real, y: real)
    requires x <= y
    ensures FloatStep(x) <= FloatStep(y)
  {
    hide Rounded;
    var v, w := Clamp(x) + 1.0, Clamp(y) + 1.0;
    RoundedOrder(v, w, 1.0 / 8388608.0, SINGLE, 126);
    RoundedOrder(Single(v) * FLOAT_SCALE, Single(w) * FLOAT_SCALE, 1.0 / 256.0, SINGLE, 141);
  }

  lemma DoubleOrder(x: real, y: real)
    requires x <= y
    ensures DoubleStep(x) <= DoubleStep(y)
  {
    hide Rounded;
    var v, w := Clamp(x) + 1.0, Clamp(y) + 1.0;
    RoundedOrder(v, w, 1.0 / 4503599627370496.0, DOUBLE, 1022);
    RoundedOrder(Double(v) * DOUBLE_SCALE, Double(w) * DOUBLE_SCALE, 1.0 / 2097152.0, DOUBLE, 1053);
  }

  // The error of reading: half a unit below 2 for the quotient, and half a unit below 1 for the difference
  lemma FloatBackError(n: nat)
    requires n < 0x1_0000
    ensures -1.0 <= FloatBack(n) <= 1.0
    ensures -3.0 / 33554432.0 <= FloatBack(n) - (n as real / FLOAT_SCALE - 1.0) <= 3.0 / 33554432.0
  {
    hide Rounded;
    var y, u := n as real / FLOAT_SCALE, 1.0 / 8388608.0;
    RoundedError(y, u, SINGLE, 126);
    RoundedNotNegative(y, u, SINGLE, 126);
    assert Multiple(2 * SINGLE, u) == 2.0;
    RoundedAtMost(y, u, SINGLE, 126, 2 * SINGLE);
    SignedError(Single(y) - 1.0);
  }

  lemma SignedError(y: real)
    requires -1.0 <= y <= 1.0
    ensures -1.0 <= Signed(y) <= 1.0 && -1.0 / 33554432.0 <= Signed(y) - y <= 1.0 / 33554432.0
  {
    hide Rounded;
    SingleError(if y < 0.0 then -y else y);
  }

  lemma SingleError(y: real)
    requires 0.0 <= y <= 1.0
    ensures 0.0 <= Single(y) <= 1.0 && -1.0 / 33554432.0 <= Single(y) - y <= 1.0 / 33554432.0
  {
    var u := 1.0 / 8388608.0;
    RoundedNotNegative(y, u, SINGLE, 126);
    assert Multiple(SINGLE, u) == 1.0;
    if y < 1.0 {
      RoundedError(y, u / 2.0, SINGLE, 125);
      RoundedAtMost(y, u, SINGLE, 126, SINGLE);
    } else {
      RoundedExact(SINGLE, u, SINGLE, 126);
    }
  }

  // The numbers at the ends come back as they are.
  lemma FloatEnds()
    ensures FloatBack(FloatStep(-1.0)) == -1.0 && FloatBack(FloatStep(1.0)) == 1.0
  {
    hide Rounded;
    SingleWhole(0);
    SingleWhole(1);
    SingleWhole(2);
    var v := 1.0 / 256.0;
    assert Multiple(0, v) == 0.0 && Multiple(16776960, v) == 65535.0;
    RoundedExact(0, v, SINGLE, 141);
    RoundedExact(16776960, v, SINGLE, 141);
  }

  lemma SingleWhole(n: nat)
    requires n <= 2
    ensures Single(n as real) == n as real
  {
    hide Rounded;
    assert Multiple(n * SINGLE, 1.0 / 8388608.0) == n as real;
    RoundedExact(n * SINGLE, 1.0 / 8388608.0, SINGLE, 126);
  }

  // What is sent can be a step too high: here the product rounds up to the next whole step.
  lemma FloatRoundsUp()
    ensures var x := 16776703.0 / 16777216.0;
            ((x + 1.0) * FLOAT_SCALE).Floor == 65533 && FloatStep(x) == 65534
  {
    var x := 16776703.0 / 16777216.0;
    assert Single(x + 1.0) == 16776960.0 / 8388608.0;
    assert SingleProduct(Single(x + 1.0) * FLOAT_SCALE) == 65534.0;
  }

  // Ties go to the even number: here the sum with 1 lies halfway between two floats, and the lower one is
  // taken, whose step is one less.
  lemma FloatTie()
    ensures FloatStep(65793.0 / 16777216.0) == 32895
  {
    var x := 65793.0 / 16777216.0;
    assert Single(x + 1.0) == 8421504.0 / 8388608.0;
    assert SingleProduct(Single(x + 1.0) * FLOAT_SCALE) == 8421375.0 / 256.0;
  }

  // A number that has been read and is sent again keeps its step or goes one step down.
  lemma FloatRelayed(n: nat)
    requires n < 0x1_0000
    ensures n - 1 <= FloatStep(FloatBack(n)) <= n
  {
    hide FloatStep, FloatBack;
    FloatBackError(n);
    FloatError(FloatBack(n));
  }

  // From the middle of the lower half on it keeps its step: the differences are exact there, and the
  // product is within half a unit of the step it came from.
  lemma FloatKept(n: nat)
    requires 0x4000 <= n < 0x1_0000
    ensures FloatStep(FloatBack(n)) == n
  {
    hide Rounded, FloatStep, FloatBack;
    var y := n as real / FLOAT_SCALE;
    if n < 0x8000 {
      KeptSumBelowOne(y);
      KeptStep(n, Single(y));
      if n == 0x4000 {
        KeptLowerEdge();
      } else {
        KeptProductBelow(n, Single(y) * FLOAT_SCALE);
      }
    } else {
      KeptSumFromOne(y);
      KeptStep(n, Single(y));
      if n == 0x8000 {
        KeptUpperEdge();
      } else {
        KeptProductFrom(n, Single(y) * FLOAT_SCALE);
      }
    }
  }

  // where the product is just below a change of the unit
  lemma KeptLowerEdge()
    ensures SingleProduct(Single(16384.0 / FLOAT_SCALE) * FLOAT_SCALE) == 16384.0
  {
    assert Single(16384.0 / FLOAT_SCALE) == 65537.0 / 131072.0;
    assert SingleProduct(4294967295.0 / 262144.0) == 16384.0;
  }

  lemma KeptUpperEdge()
    ensures SingleProduct(Single(32768.0 / FLOAT_SCALE) * FLOAT_SCALE) == 32768.0
  {
    assert Single(32768.0 / FLOAT_SCALE) == 65537.0 / 65536.0;
    assert SingleProduct(4294967295.0 / 131072.0) == 32768.0;
  }

  lemma KeptStep(n: nat, q: real)
    requires q == Single(n as real / FLOAT_SCALE) && 0.0 <= q <= 2.0
    requires Signed(q - 1.0) == q - 1.0 && Single(q) == q
    ensures FloatStep(FloatBack(n)) == SingleProduct(q * FLOAT_SCALE).Floor
  {
    hide Rounded;
    assert FloatBack(n) == q - 1.0;
    assert FloatBack(n) + 1.0 == q;
  }

  lemma KeptSumBelowOne(y: real)
    requires 0.5 <= y < 1.0
    ensures 0.5 <= Single(y) <= 1.0 && Signed(Single(y) - 1.0) == Single(y) - 1.0 && Single(Single(y)) == Single(y)
    ensures -1.0 / 33554432.0 <= Single(y) - y <= 1.0 / 33554432.0
  {
    hide Rounded, Nearest, HalfEven;
    var u := 1.0 / 16777216.0;
    SingleError(y);
    BelowOne(y);
    assert Multiple(SINGLE, u) == 0.5;
    RoundedAtLeast(y, u, SINGLE, 125, SINGLE);
    RoundedTwice(y, 1.0 / 8388608.0, SINGLE, 126, 126);
    WholeUnits(y, u);
    ExactDifference(HalfEven(y / u));
  }

  lemma WholeUnits(y: real, u: real)
    requires u > 0.0
    ensures Nearest(y, u) == Multiple(HalfEven(y / u), u)
  {
  }

  lemma ExactDifference(m: int)
    requires 0.5 <= Multiple(m, 1.0 / 16777216.0) <= 1.0
    ensures Signed(Multiple(m, 1.0 / 16777216.0) - 1.0) == Multiple(m, 1.0 / 16777216.0) - 1.0
  {
    hide Rounded;
    var u := 1.0 / 16777216.0;
    var rest := 2 * SINGLE - m;
    assert Multiple(rest, u) == 1.0 - Multiple(m, u);
    BelowOne(1.0 - Multiple(m, u));
    RoundedExact(rest, u, SINGLE, 125);
    SingleWhole(0);
  }

  lemma BelowOne(y: real)
    requires y < 1.0
    ensures Single(y) == Rounded(y, 1.0 / 16777216.0, SINGLE, 125)
  {
    assert Multiple(SINGLE, 1.0 / 8388608.0) == 1.0;
    assert 1.0 / 8388608.0 / 2.0 == 1.0 / 16777216.0;
  }

  lemma KeptSumFromOne(y: real)
    requires 1.0 <= y <= 2.0
    ensures 1.0 <= Single(y) <= 2.0 && Signed(Single(y) - 1.0) == Single(y) - 1.0 && Single(Single(y)) == Single(y)
    ensures -1.0 / 16777216.0 <= Single(y) - y <= 1.0 / 16777216.0
  {
    hide Rounded, Nearest, HalfEven;
    var u := 1.0 / 8388608.0;
    assert Multiple(SINGLE, u) == 1.0 && Multiple(2 * SINGLE, u) == 2.0;
    RoundedError(y, u, SINGLE, 126);
    RoundedAtLeast(y, u, SINGLE, 126, SINGLE);
    RoundedAtMost(y, u, SINGLE, 126, 2 * SINGLE);
    RoundedTwice(y, u, SINGLE, 126, 126);
    WholeUnits(y, u);
    ExactExcess(HalfEven(y / u));
  }

  lemma ExactExcess(m: int)
    requires 1.0 <= Multiple(m, 1.0 / 8388608.0)
    ensures Signed(Multiple(m, 1.0 / 8388608.0) - 1.0) == Multiple(m, 1.0 / 8388608.0) - 1.0
  {
    hide Rounded;
    var u := 1.0 / 8388608.0;
    var rest := m - SINGLE;
    assert Multiple(rest, u) == Multiple(m, u) - 1.0;
    RoundedExact(rest, u, SINGLE, 126);
  }

  lemma KeptProductBelow(n: nat, z: real)
    requires 0x4000 < n < 0x8000 && -1.0 / 1024.0 < z - n as real < 1.0 / 1024.0
    ensures SingleProduct(z).Floor == n
  {
    hide Nearest;
    assert Multiple(SINGLE, 1.0 / 256.0) == 32768.0 && Multiple(SINGLE, 1.0 / 512.0) == 16384.0;
    assert SingleProduct(z) == Nearest(z, 1.0 / 512.0);
    NearestStep(n, z, 1.0 / 512.0, 512);
  }

  lemma KeptProductFrom(n: nat, z: real)
    requires 0x8000 < n < 0x1_0000 && -1.0 / 512.0 < z - n as real < 1.0 / 512.0
    ensures SingleProduct(z).Floor == n
  {
    hide Nearest;
    assert Multiple(SINGLE, 1.0 / 256.0) == 32768.0;
    assert SingleProduct(z) == Nearest(z, 1.0 / 256.0);
    NearestStep(n, z, 1.0 / 256.0, 256);
  }

  // within half a unit of a whole number the nearest multiple is that number
  lemma NearestStep(n: nat, z: real, u: real, parts: nat)
    requires u > 0.0 && u * parts as real == 1.0
    requires -0.5 < (z - n as real) * parts as real < 0.5
    ensures Nearest(z, u) == n as real
  {
    hide HalfEven, Multiple;
    var m := n * parts;
    InParts(z, n, u, parts);
    WholeBetween(z * parts as real, m);
    Undone(z * parts as real, u, z);
  }

  lemma InParts(z: real, n: nat, u: real, parts: nat)
    requires u * parts as real == 1.0
    ensures (z * parts as real) * u == z && Multiple(n * parts, u) == n as real
    ensures (z - n as real) * parts as real == z * parts as real - (n * parts) as real
  {
    assert (n * parts) as real == n as real * parts as real;
    assert (z * parts as real) * u == z * (u * parts as real);
  }

  lemma Undone(q: real, u: real, z: real)
    requires u > 0.0 && q * u == z
    ensures z / u == q
  {
  }

  lemma WholeBetween(z: real, n: int)
    requires -0.5 < z - n as real < 0.5
    ensures HalfEven(z) == n
  {
  }

  // Below that it can go down.
  lemma FloatDrifts()
    ensures FloatStep(FloatBack(16222)) == 16221
  {
    hide FloatBack;
    DriftingBack();
    assert Single(4152895.0 / 8388608.0) == 4152895.0 / 8388608.0;
    assert SingleProduct(4152895.0 / 8388608.0 * FLOAT_SCALE) == 16611327.0 / 1024.0;
  }

  lemma DriftingBack()
    ensures FloatBack(16222) == -4235713.0 / 8388608.0
  {
    assert Single(16222.0 / FLOAT_SCALE) == 16611581.0 / 33554432.0;
    assert Single(16942851.0 / 33554432.0) == 4235713.0 / 8388608.0;
  }

  // The product of the double form is exact, so a double is rounded once only, when 1 is added to it.
  lemma DoubleRoundsOnce(x: real)
    ensures DoubleStep(x) == (Double(Clamp(x) + 1.0) * DOUBLE_SCALE).Floor
  {
    hide Rounded;
    var y, u := Clamp(x) + 1.0, 1.0 / 4503599627370496.0;
    var r := Double(y);
    RoundedNotNegative(y, u, DOUBLE, 1022);
    RoundedTwice(y, u, DOUBLE, 1022, 1053);
    RoundedScaled(r, u, DOUBLE_SCALE, r * DOUBLE_SCALE, 1.0 / 2097152.0, DOUBLE, 1053);
  }

  // The double form fits four bytes exactly below 1 - 2^-53: from there on the sum rounds to 2.
  lemma DoubleFits(x: real)
    ensures DoubleStep(x) < 0x1_0000_0000 <==> x < DOUBLE_LIMIT
  {
    hide Rounded;
    DoubleRoundsOnce(x);
    DoubleNotNegative(x);
    DoubleSumBelowTwo(Clamp(x) + 1.0);
  }

  lemma DoubleSumBelowTwo(y: real)
    requires 0.0 <= y <= 2.0
    ensures y < 1.0 + DOUBLE_LIMIT ==> Double(y) <= 9007199254740991.0 / 4503599627370496.0
    ensures y >= 1.0 + DOUBLE_LIMIT ==> Double(y) == 2.0
  {
    var u := 1.0 / 4503599627370496.0;
    assert Multiple(DOUBLE, u) == 1.0;
    if y < 1.0 {
      RoundedAtMost(y, u, DOUBLE, 1022, DOUBLE);
    } else {
      assert Double(y) == Nearest(y, u);
      assert y / u == y * 4503599627370496.0;
    }
  }

  // Among the doubles from 1/2 to 1, which are k / 2^53, those fit that are at most 1 - 2^-52.
  lemma DoublesThatFit(k: nat)
    requires 0x10_0000_0000_0000 <= k <= 0x20_0000_0000_0000
    ensures var x := k as real / 9007199254740992.0;
            DoubleStep(x) < 0x1_0000_0000 <==> x <= 1.0 - 1.0 / 4503599627370496.0
  {
    hide DoubleStep;
    DoubleFits(k as real / 9007199254740992.0);
  }

  // 1 does not fit, and neither does the largest double below it.
  lemma OneDoesNotFit()
    ensures DoubleStep(1.0) == 0x1_0000_0000
    ensures DoubleStep(1.0 - 1.0 / 9007199254740992.0) == 0x1_0000_0000
  {
    hide Rounded;
    DoubleRoundsOnce(1.0);
    DoubleSumBelowTwo(2.0);
    DoubleRoundsOnce(DOUBLE_LIMIT);
    DoubleSumBelowTwo(1.0 + DOUBLE_LIMIT);
  }

  // Reading a double rounds nothing.
  lemma DoubleBackIsExact(n: nat)
    requires n < 0x1_0000_0000
    ensures DoubleBack(n) == n as real / DOUBLE_SCALE - 1.0
  {
    hide Rounded;
    var k := 0x8000_0000;
    DoubleExact(n);
    if n < k {
      DoubleExact(k - n);
    } else {
      DoubleExact(n - k);
    }
  }

  lemma DoubleExact(n: nat)
    requires n <= 0x1_0000_0000
    ensures Double(n as real / DOUBLE_SCALE) == n as real / DOUBLE_SCALE
  {
    hide Rounded;
    var u := 1.0 / 4503599627370496.0;
    assert Multiple(n * 2097152, u) == n as real / DOUBLE_SCALE;
    RoundedExact(n * 2097152, u, DOUBLE, 1022);
  }

  // A double that has been read and is sent again keeps its step.
  lemma DoubleRelayed(n: nat)
    requires n < 0x1_0000_0000
    ensures DoubleStep(DoubleBack(n)) == n
  {
    hide Rounded, DoubleStep, DoubleBack, Double;
    DoubleBackIsExact(n);
    DoubleRoundsOnce(DoubleBack(n));
    DoubleExact(n);
  }

  method WriteCompressedFloat(bs: BitStream, x: real, bigEndian: bool)
    requires bs.Valid()
    modifies bs.Footprint()
    ensures bs.Valid() && fresh(bs.Footprint() - old(bs.Footprint())) && bs.readOffset == old(bs.readOffset)
    ensures bs.Bits() == old(bs.Bits()) + AllBits(LittleEndian(FloatStep(x), 2))
  {
    hide TakeBits, ZeroFrom, LittleEndian, Rounded;
    var y := x;
    if y < -1.0 {
      y := -1.0;
    }
    if y > 1.0 {
      y := 1.0;
    }
    assert y == Clamp(x);
    FloatFits(x);
    WriteNative(bs, SingleProduct(Single(y + 1.0) * FLOAT_SCALE).Floor, 2, bigEndian);
  }

  method ReadCompressedFloat(bs: BitStream, bigEndian: bool) returns (ok: bool, x: real)
    requires bs.Valid()
    modifies bs`readOffset
    ensures bs.Valid() && (ok <==> 16 <= |old(bs.Unread())|)
    ensures bs.readOffset == old(bs.readOffset) + if ok then 16 else 0
    ensures ok ==> x == FloatBack(FromLittleEndian(Pack(old(bs.Unread())[..16])))
  {
    hide TakeBits, ZeroFrom, Pack, FromLittleEndian, Rounded;
    var compressedFloat;
    ok, compressedFloat := ReadNative(bs, 2, bigEndian);
    x := Signed(Single(compressedFloat as real / FLOAT_SCALE) - 1.0);
  }

  // What is read back from the bits written for a number, once it is clamped, lies less than one step and
  // a 128th of one below it, and less than a 128th of a step above it.
  lemma FloatRoundTrip(x: real, rest: seq<bool>)
    ensures var bits := AllBits(LittleEndian(FloatStep(x), 2));
            |bits| == 16 &&
            var y := FloatBack(FromLittleEndian(Pack((bits + rest)[..16])));
            y - 1.0 / 128.0 / FLOAT_SCALE < Clamp(x) < y + (1.0 + 1.0 / 128.0) / FLOAT_SCALE
  {
    hide FloatStep, FloatBack;
    FloatError(x);
    FloatBackError(FloatStep(x));
    assert Pow256(2) == 65536;
    BackFromBits(FloatStep(x), 2, rest);
  }

  lemma BackFromBits(n: nat, size: nat, rest: seq<bool>)
    requires n < Pow256(size)
    ensures var bits := AllBits(LittleEndian(n, size));
            |bits| == 8 * size && FromLittleEndian(Pack((bits + rest)[..8 * size])) == n
  {
    hide TakeBits, Pack, FromLittleEndian, LittleEndian, Pow256;
    var bytes := LittleEndian(n, size);
    assert (AllBits(bytes) + rest)[..8 * size] == AllBits(bytes);
    PackAll(bytes);
    LittleEndianBack(n, size);
  }

  // From the limit on the step does not fit its four bytes, and the conversion of the original has no
  // defined result.
  method WriteCompressedDouble(bs: BitStream, x: real, bigEndian: bool)
    requires bs.Valid() && x < DOUBLE_LIMIT
    modifies bs.Footprint()
    ensures bs.Valid() && fresh(bs.Footprint() - old(bs.Footprint())) && bs.readOffset == old(bs.readOffset)
    ensures bs.Bits() == old(bs.Bits()) + AllBits(LittleEndian(DoubleStep(x), 4))
  {
    hide TakeBits, ZeroFrom, LittleEndian, Rounded;
    var y := x;
    if y < -1.0 {
      y := -1.0;
    }
    if y > 1.0 {
      y := 1.0;
    }
    assert y == Clamp(x);
    DoubleNotNegative(x);
    WriteNative(bs, DoubleProduct(Double(y + 1.0) * DOUBLE_SCALE).Floor, 4, bigEndian);
  }

  method ReadCompressedDouble(bs: BitStream, bigEndian: bool) returns (ok: bool, x: real)
    requires bs.Valid()
    modifies bs`readOffset
    ensures bs.Valid() && (ok <==> 32 <= |old(bs.Unread())|)
    ensures bs.readOffset == old(bs.readOffset) + if ok then 32 else 0
    ensures ok ==> x == DoubleBack(FromLittleEndian(Pack(old(bs.Unread())[..32])))
  {
    hide TakeBits, ZeroFrom, Pack, FromLittleEndian, Rounded;
    var compressedFloat;
    ok, compressedFloat := ReadNative(bs, 4, bigEndian);
    x := SignedDouble(Double(compressedFloat as real / DOUBLE_SCALE) - 1.0);
  }

  // Where it fits, the double form comes back less than one step and 2^-53 below the clamped number, and
  // at most 2^-53 above it.
  lemma DoubleRoundTrip(x: real, rest: seq<bool>)
    requires x < DOUBLE_LIMIT
    ensures var bits := AllBits(LittleEndian(DoubleStep(x), 4));
            |bits| == 32 &&
            var y := DoubleBack(FromLittleEndian(Pack((bits + rest)[..32])));
            var e := 1.0 / 9007199254740992.0;
            y - e <= Clamp(x) < y + 1.0 / DOUBLE_SCALE + e
  {
    hide DoubleStep, DoubleBack, Rounded;
    DoubleFits(x);
    DoubleRoundsOnce(x);
    RoundedError(Clamp(x) + 1.0, 1.0 / 4503599627370496.0, DOUBLE, 1022);
    DoubleBackIsExact(DoubleStep(x));
    assert Pow256(4) == 0x1_0000_0000;
    BackFromBits(DoubleStep(x), 4, rest);
  }
}
