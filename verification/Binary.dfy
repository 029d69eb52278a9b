/** Numbers and their binary digits, as an account of bits and bytes that does not shift or mask anything. */
module Binary {
  import opened Bytes

  // the number a bit string spells, most significant digit first
  function Number(bits: seq<bool>): nat {
    if bits == [] then 0 else 2 * Number(bits[..|bits| - 1]) + if bits[|bits| - 1] then 1 else 0
  }

  // the last n digits of a number, most significant first
  function Digits(v: nat, n: nat): (bits: seq<bool>)
    ensures |bits| == n
    decreases n
  {
    if n == 0 then [] else Digits(v / 2, n - 1) + [v % 2 == 1]
  }

  function Power2(n: nat): (p: nat)
    ensures p >= 1
  {
    if n == 0 then 1 else 2 * Power2(n - 1)
  }

  lemma {:induction false} DigitsBack(bits: seq<bool>)
    ensures Digits(Number(bits), |bits|) == bits && Number(bits) < Power2(|bits|)
    decreases |bits|
  {
    if bits != [] {
      var front := bits[..|bits| - 1];
      DigitsBack(front);
      assert bits == front + [bits[|bits| - 1]];
      assert Number(bits) / 2 == Number(front);
    }
  }

  lemma {:induction false} NumberBack(v: nat, n: nat)
    requires v < Power2(n)
    ensures Number(Digits(v, n)) == v
    decreases n
  {
    if n > 0 {
      NumberBack(v / 2, n - 1);
      assert Digits(v, n)[..n - 1] == Digits(v / 2, n - 1);
    }
  }

  lemma {:induction false} HalfByte(b: byte)
    ensures (b >> 1) as nat == b as nat / 2 && ((b & 0x01 != 0) <==> b as nat % 2 == 1)
    decreases b as nat
  {
    if b == 0 || b == 1 {
      assert 0 as byte as nat == 0 && 1 as byte as nat == 1;
      assert b >> 1 == 0;
    } else {
      TwoLess(b);
      HalfByte(b - 2);
      ShiftTwoLess(b);
      OneLess(b >> 1);
    }
  }

  lemma OneLess(b: byte)
    requires b != 0
    ensures b as nat > 0 && (b - 1) as nat == b as nat - 1
  {
  }

  lemma TwoLess(b: byte)
    requires b != 0 && b != 1
    ensures b as nat >= 2 && (b - 2) as nat == b as nat - 2
  {
    OneLess(b);
    OneLess(b - 1);
    assert b - 1 - 1 == b - 2;
  }

  lemma ShiftTwoLess(b: byte)
    requires b != 0 && b != 1
    ensures b >> 1 != 0 && (b - 2) >> 1 == (b >> 1) - 1 && (b - 2) & 0x01 == b & 0x01
  {
  }

  function LastBits(b: byte, n: nat): (bits: seq<bool>)
    requires n <= 8
    ensures |bits| == n
  {
    seq(n, i requires 0 <= i < n => BitAt(b, 8 - n + i))
  }

  // The last n bits of a byte are the last n digits of its number.
  lemma {:induction false} ByteDigits(b: byte, n: nat)
    requires n <= 8
    ensures LastBits(b, n) == Digits(b as nat, n)
    decreases n
  {
    if n > 0 {
      hide BitAt, LastBits;
      ByteDigits(b >> 1, n - 1);
      HalfByte(b);
      LastBit(b);
      LastBitsStep(b, n);
    }
  }

  lemma LastBitsStep(b: byte, n: nat)
    requires 0 < n <= 8
    ensures LastBits(b, n) == LastBits(b >> 1, n - 1) + [BitAt(b, 7)]
  {
    hide BitAt;
    forall i: nat | i < n - 1
      ensures LastBits(b, n)[i] == LastBits(b >> 1, n - 1)[i]
    {
      ShiftedBit(b, 8 - n + i);
    }
  }

  lemma LastBit(b: byte)
    ensures BitAt(b, 7) <==> b & 0x01 != 0
  {
    BitMasks(b);
  }

  lemma ShiftedBit(b: byte, i: nat)
    requires i < 7
    ensures BitAt(b >> 1, i + 1) == BitAt(b, i)
  {
    hide BitAt;
    ShiftRightBit(b, 1, i + 1);
    assert ShiftRight(b, 1) == b >> 1;
  }

  // The bits of one byte
  lemma OneByte(b: byte)
    ensures AllBits([b]) == Digits(b as nat, 8)
  {
    hide BitAt;
    ByteDigits(b, 8);
  }

  // A right-aligned write of up to eight bits takes the last digits of the byte.
  lemma RightAligned(b: byte, n: nat)
    requires 1 <= n <= 8
    ensures Payload([b], n, true) == Digits(b as nat, n)
  {
    hide BitAt, ShiftLeft, LeftAligned, Digits;
    ByteDigits(b, n);
    MovedLeft(b, n);
    var c := ShiftLeft(b, 8 - n);
    forall i: nat | i < n
      ensures TakeBits([c], n)[i] == LastBits(b, n)[i]
    {
      ShiftLeftBit(b, 8 - n, i);
    }
  }

  lemma MovedLeft(b: byte, n: nat)
    requires 1 <= n <= 8
    ensures LeftAligned([b], n, true) == [ShiftLeft(b, 8 - n)]
  {
    if n == 8 {
      assert ShiftLeft(b, 0) == b;
    }
  }

  // A right-aligned write takes its whole bytes as they are and the last digits of the byte after them.
  lemma RightAlignedPayload(input: seq<byte>, n: nat)
    requires n <= 8 * |input|
    ensures var whole, r := n / 8, n % 8;
            && Payload(input, n, true)[..8 * whole] == AllBits(input[..whole])
            && Payload(input, n, true)[8 * whole..] == if r == 0 then [] else Digits(input[whole] as nat, r)
  {
    hide BitAt, ShiftLeft, Digits;
    var whole, r := n / 8, n % 8;
    var t := LeftAligned(input, n, true);
    forall p: nat | p < 8 * whole
      ensures Bit(t, p) == Bit(input[..whole], p)
    {
      assert p / 8 < whole;
    }
    if r > 0 {
      RightAligned(input[whole], r);
      MovedLeft(input[whole], r);
      assert t[whole] == ShiftLeft(input[whole], 8 - r);
      LastByteBits(t, whole, r);
    }
  }

  lemma LastByteBits(t: seq<byte>, whole: nat, r: nat)
    requires whole < |t| && r <= 8
    ensures TakeBits(t, 8 * whole + r)[8 * whole..] == TakeBits([t[whole]], r)
  {
    hide BitAt;
    forall i: nat | i < r
      ensures Bit(t, 8 * whole + i) == Bit([t[whole]], i)
    {
      assert (8 * whole + i) / 8 == whole && (8 * whole + i) % 8 == i;
    }
  }

  lemma {:induction false} LeadingZeros(n: nat, bits: seq<bool>)
    ensures Number(Zeros(n) + bits) == Number(bits)
    decreases n + |bits|
  {
    var all := Zeros(n) + bits;
    if bits != [] {
      LeadingZeros(n, bits[..|bits| - 1]);
      assert all[..|all| - 1] == Zeros(n) + bits[..|bits| - 1];
    } else if n > 0 {
      LeadingZeros(n - 1, []);
      assert all[..|all| - 1] == Zeros(n - 1) + [];
    }
  }

  lemma ByteNumber(b: byte)
    ensures Number(AllBits([b])) == b as nat
  {
    hide TakeBits, Digits, Number;
    OneByte(b);
    assert Power2(8) == 256;
    NumberBack(b as nat, 8);
  }

  // A byte of a read holds the number its bits spell; a partial last byte does when it is aligned right.
  lemma FetchedNumber(s: seq<byte>, used: nat, off: nat, n: nat, k: nat)
    requires off + n <= used <= 8 * |s| && 8 * k < n
    ensures var end := if 8 * k + 8 <= n then 8 * k + 8 else n;
            && Fetched(s, off, n, true)[k] as nat == Number(TakeBits(s, used)[off + 8 * k..off + end])
            && (8 * k + 8 <= n ==> Fetched(s, off, n, false)[k] == Fetched(s, off, n, true)[k])
  {
    hide TakeBits, Number;
    var end := if 8 * k + 8 <= n then 8 * k + 8 else n;
    var b, slice := Fetched(s, off, n, true)[k], TakeBits(s, used)[off + 8 * k..off + end];
    FetchedDigits(s, used, off, n, k);
    ByteNumber(b);
    LeadingZeros(8 - |slice|, slice);
  }

  lemma FetchedDigits(s: seq<byte>, used: nat, off: nat, n: nat, k: nat)
    requires off + n <= used <= 8 * |s| && 8 * k < n
    ensures var end := if 8 * k + 8 <= n then 8 * k + 8 else n;
            AllBits([Fetched(s, off, n, true)[k]]) ==
            Zeros(8 - (end - 8 * k)) + TakeBits(s, used)[off + 8 * k..off + end]
  {
    hide Bit, FetchByte;
    FetchByteDigits(s, off + 8 * k, n - 8 * k);
    var end := if 8 * k + 8 <= n then 8 * k + 8 else n;
    assert TakeBits(s, used)[off + 8 * k..off + end] == BitsFrom(s, off + 8 * k, end - 8 * k);
  }

  function BitsFrom(s: seq<byte>, off: nat, n: nat): (bits: seq<bool>)
    requires off + n <= 8 * |s|
    ensures |bits| == n
  {
    seq(n, i requires 0 <= i < n => Bit(s, off + i))
  }

  lemma FetchByteDigits(s: seq<byte>, off: nat, n: nat)
    requires 1 <= n && off + n <= 8 * |s|
    ensures var r := if n < 8 then n else 8;
            AllBits([FetchByte(s, off, n, true)]) == Zeros(8 - r) + BitsFrom(s, off, r)
  {
    hide BitAt, ShiftRight, GetByte;
    var r, b := if n < 8 then n else 8, FetchByte(s, off, n, true);
    forall i: nat | i < 8
      ensures BitAt(b, i) == (i >= 8 - r && BitsFrom(s, off, r)[i - (8 - r)])
    {
      FetchByteBit(s, off, n, i);
    }
  }

  lemma FetchByteBit(s: seq<byte>, off: nat, n: nat, i: nat)
    requires 1 <= n && off + n <= 8 * |s| && i < 8
    ensures var m := if n < 8 then 8 - n else 0;
            BitAt(FetchByte(s, off, n, true), i) == (i >= m && Bit(s, off + i - m))
  {
    hide BitAt, ShiftRight, GetByte, Bit;
    if n < 8 {
      ShiftRightBit(GetByte(s, off, n), 8 - n, i);
      if i >= 8 - n {
        GetByteBit(s, off, n, i - (8 - n));
      }
    } else {
      GetByteBit(s, off, n, i);
    }
  }

  // What stands behind the bits of a partial last byte that is not aligned right: the bits that follow in
  // the stream, as far as the bytes they came from reach, and then zeros.
  lemma FetchedSpare(s: seq<byte>, off: nat, n: nat, i: nat)
    requires off + n <= 8 * |s| && n % 8 <= i < 8 && n % 8 != 0
    ensures var whole, from := n / 8, (off + 8 * (n / 8)) % 8;
            BitAt(Fetched(s, off, n, false)[whole], i) ==
            if from + i < 8 then BitAt(s[(off + 8 * whole) / 8], from + i)
            else from + n % 8 > 8 && BitAt(s[(off + 8 * whole) / 8 + 1], from + i - 8)
  {
    hide BitAt, ShiftLeft, ShiftRight;
    var at, from := (off + 8 * (n / 8)) / 8, (off + 8 * (n / 8)) % 8;
    ShiftLeftBit(s[at], from, i);
    if from > 0 && n % 8 > 8 - from {
      ShiftRightBit(s[at + 1], 8 - from, i);
      OrBit(ShiftLeft(s[at], from), ShiftRight(s[at + 1], 8 - from), i);
    }
  }

  lemma {:induction false} NumberOfDigits(v: nat, n: nat)
    ensures Number(Digits(v, n)) == v % Power2(n)
    decreases n
  {
    if n > 0 {
      NumberOfDigits(v / 2, n - 1);
      assert Digits(v, n)[..n - 1] == Digits(v / 2, n - 1);
      HalfRemainder(v, Power2(n - 1));
    }
  }

  lemma HalfRemainder(v: nat, p: nat)
    requires p >= 1
    ensures v % (2 * p) == 2 * (v / 2 % p) + v % 2
  {
    var q, r := v / 2 / p, v / 2 % p;
    assert v / 2 == p * q + r;
    Remainder(v, 2 * p, q, 2 * r + v % 2) by {
      assert v == 2 * (p * q + r) + v % 2;
      assert 2 * (p * q) == (2 * p) * q;
    }
  }

  lemma Remainder(v: nat, p: nat, q: nat, r: nat)
    requires r < p && v == p * q + r
    ensures v % p == r
  {
    var k, t := v / p, v % p;
    DivisionIs(v, p);
    if k < q {
      NextMultiple(p, k, q);
    } else if k > q {
      NextMultiple(p, q, k);
    }
  }

  lemma DivisionIs(v: nat, p: nat)
    requires p > 0
    ensures v == p * (v / p) + v % p && v % p < p
  {
  }

  lemma {:induction false} NextMultiple(p: nat, j: nat, k: nat)
    requires j < k
    ensures p * j + p <= p * k
    decreases k
  {
    AddedOnce(p, k - 1);
    if j + 1 < k {
      NextMultiple(p, j, k - 1);
    }
  }

  lemma AddedOnce(p: nat, k: nat)
    ensures p * (k + 1) == p * k + p
  {
  }

  lemma SameNumber(a: byte, b: byte)
    requires a as nat == b as nat
    ensures a == b
  {
  }

  lemma ByteOf(input: seq<byte>, k: nat)
    requires k < |input|
    ensures |AllBits(input)| == 8 * |input| && AllBits(input)[8 * k..8 * k + 8] == AllBits([input[k]])
  {
    hide BitAt;
    forall i: nat | i < 8
      ensures Bit(input, 8 * k + i) == Bit([input[k]], i)
    {
      assert (8 * k + i) / 8 == k && (8 * k + i) % 8 == i;
    }
  }

  lemma WholePart(input: seq<byte>, n: nat, rightAligned: bool)
    requires n <= 8 * |input|
    ensures Payload(input, n, rightAligned)[..8 * (n / 8)] == AllBits(input[..n / 8])
  {
    hide BitAt;
    if rightAligned {
      RightAlignedPayload(input, n);
    } else {
      forall p: nat | p < 8 * (n / 8)
        ensures Bit(input, p) == Bit(input[..n / 8], p)
      {
        assert p / 8 < n / 8;
      }
    }
  }

  lemma SliceOfSlice(all: seq<bool>, off: nat, n: nat, m: nat, at: nat)
    requires off + n <= |all| && at + 8 <= m <= n
    ensures all[off..off + n][..m][at..at + 8] == all[off + at..off + at + 8]
  {
    ShorterSlice(all, off, n, m);
    InnerSlice(all, off, m, at);
  }

  lemma ShorterSlice(all: seq<bool>, off: nat, n: nat, m: nat)
    requires off + n <= |all| && m <= n
    ensures all[off..off + n][..m] == all[off..off + m]
  {
    var x, y := all[off..off + n][..m], all[off..off + m];
    forall i | 0 <= i < m
      ensures x[i] == y[i]
    {
    }
  }

  lemma InnerSlice(all: seq<bool>, off: nat, m: nat, at: nat)
    requires off + m <= |all| && at + 8 <= m
    ensures all[off..off + m][at..at + 8] == all[off + at..off + at + 8]
  {
    var x, y := all[off..off + m][at..at + 8], all[off + at..off + at + 8];
    forall i | 0 <= i < 8
      ensures x[i] == y[i]
    {
    }
  }

  lemma WholeByteBack(s: seq<byte>, used: nat, off: nat, input: seq<byte>, n: nat, rightAligned: bool, k: nat)
    requires off + n <= used <= 8 * |s| && n <= 8 * |input| && k < n / 8
    requires TakeBits(s, used)[off..off + n] == Payload(input, n, rightAligned)
    ensures Fetched(s, off, n, rightAligned)[k] == input[k]
  {
    hide TakeBits, AllBits, Payload, Number, Fetched;
    WholePart(input, n, rightAligned);
    ByteOf(input[..n / 8], k);
    FetchedNumber(s, used, off, n, k);
    var slice := TakeBits(s, used)[off..off + n];
    SliceOfSlice(TakeBits(s, used), off, n, 8 * (n / 8), 8 * k);
    ByteNumber(input[k]);
    SameNumber(Fetched(s, off, n, rightAligned)[k], input[k]);
  }

  // Raw bits that were written and are read back the same way: the whole bytes come back, and of the byte
  // after them the last digits of its number, or its first bits when nothing is aligned right.
  lemma RawValue(s: seq<byte>, used: nat, off: nat, input: seq<byte>, n: nat, rightAligned: bool)
    requires off + n <= used <= 8 * |s| && n <= 8 * |input|
    requires TakeBits(s, used)[off..off + n] == Payload(input, n, rightAligned)
    ensures var got, whole, r := Fetched(s, off, n, rightAligned), n / 8, n % 8;
            && got[..whole] == input[..whole]
            && (r > 0 && rightAligned ==> got[whole] as nat == input[whole] as nat % Power2(r))
            && (r > 0 && !rightAligned ==> TakeBits([got[whole]], r) == TakeBits([input[whole]], r))
  {
    hide TakeBits, Payload, Number, Fetched, Digits, Power2;
    var got, whole, r := Fetched(s, off, n, rightAligned), n / 8, n % 8;
    forall k | 0 <= k < whole
      ensures got[k] == input[k]
    {
      WholeByteBack(s, used, off, input, n, rightAligned, k);
    }
    var slice := TakeBits(s, used)[off..off + n];
    if r > 0 && rightAligned {
      RightAlignedPayload(input, n);
      FetchedNumber(s, used, off, n, whole);
      assert TakeBits(s, used)[off + 8 * whole..off + n] == slice[8 * whole..];
      NumberOfDigits(input[whole] as nat, r);
    } else if r > 0 {
      LeftPart(s, used, off, input, n);
    }
  }

  lemma LeftPart(s: seq<byte>, used: nat, off: nat, input: seq<byte>, n: nat)
    requires off + n <= used <= 8 * |s| && n <= 8 * |input| && n % 8 > 0
    requires TakeBits(s, used)[off..off + n] == Payload(input, n, false)
    ensures TakeBits([Fetched(s, off, n, false)[n / 8]], n % 8) == TakeBits([input[n / 8]], n % 8)
  {
    hide TakeBits, Fetched;
    FetchedSlice(s, used, off, n, false);
    LastByteBits(Fetched(s, off, n, false), n / 8, n % 8);
    LastByteBits(input, n / 8, n % 8);
  }
}
