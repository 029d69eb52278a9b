/** The byte-eliding code seen from the numbers it stands for, bit by bit, and which bit strings it reads. */
module CompressedNumbers {
  import opened Bytes
  import opened Binary
  import opened CompressedInts
  import opened NativeValues

  function Ones(n: nat): (bits: seq<bool>)
    ensures |bits| == n
  {
    seq(n, _ => true)
  }

  function Repeat(b: byte, n: nat): (bytes: seq<byte>)
    ensures |bytes| == n
  {
    seq(n, _ => b)
  }

  lemma OneMoreFlag(n: nat)
    ensures Ones(n + 1) == [true] + Ones(n)
  {
  }

  lemma FillMore(b: byte, n: nat)
    ensures Repeat(b, n + 1) == Repeat(b, n) + [b] && Repeat(b, n + 1) == [b] + Repeat(b, n)
  {
  }

  // every high byte that is 0, or 0xFF in the signed mode, is one set flag
  lemma {:induction false} FlagsFirst(low: seq<byte>, high: nat, unsignedData: bool)
    requires low != []
    ensures Compress(low + Repeat(if unsignedData then 0 else 0xFF, high), unsignedData) ==
            Ones(high) + Compress(low, unsignedData)
    decreases high
  {
    var b: byte := if unsignedData then 0 else 0xFF;
    if high == 0 {
      assert low + Repeat(b, 0) == low && Ones(0) + Compress(low, unsignedData) == Compress(low, unsignedData);
    } else {
      hide Compress;
      FillMore(b, high - 1);
      FirstOfThree(low, Repeat(b, high - 1), [b]);
      OneFlag(low + Repeat(b, high - 1), unsignedData);
      FlagsFirst(low, high - 1, unsignedData);
      OneMoreFlag(high - 1);
      FirstFlag(Ones(high - 1), Compress(low, unsignedData));
    }
  }

  lemma OneFlag(low: seq<byte>, unsignedData: bool)
    requires low != []
    ensures Compress(low + [if unsignedData then 0 else 0xFF], unsignedData) == [true] + Compress(low, unsignedData)
  {
    var v := low + [if unsignedData then 0 else 0xFF];
    assert v[..|v| - 1] == low;
  }

  lemma FirstFlag(ones: seq<bool>, code: seq<bool>)
    ensures [true] + (ones + code) == ([true] + ones) + code
  {
  }

  // two bytes or more of which the highest is not elided follow a clear flag as they are
  lemma WholeByteForm(v: seq<byte>, unsignedData: bool)
    requires |v| > 1 && v[|v| - 1] != if unsignedData then 0 else 0xFF
    ensures Compress(v, unsignedData) == [false] + AllBits(v)
  {
  }

  // The nibble form is taken for the bytes below 16, and for those from 240 on in the signed mode.
  lemma LowByteForm(b: byte, unsignedData: bool)
    ensures Compress([b], unsignedData) ==
            if (if unsignedData then b as nat < 16 else b as nat >= 240) then [true] + Digits(b as nat, 4)
            else [false] + Digits(b as nat, 8)
  {
    hide TakeBits, Payload, AllBits, Digits;
    OneByte(b);
    RightAligned(b, 4);
    HighNibbleNumber(b);
  }

  lemma HighNibbleNumber(b: byte)
    ensures b & 0xF0 == 0 <==> b as nat < 16
    ensures b & 0xF0 == 0xF0 <==> b as nat >= 240
  {
    BelowByte(b, 16);
    BelowByte(b, 240);
    assert b & 0xF0 == 0 <==> b < 16;
    assert b & 0xF0 == 0xF0 <==> b >= 240;
  }

  lemma BelowByte(b: byte, c: byte)
    ensures b < c <==> b as nat < c as nat
  {
  }

  lemma {:induction false} Wide(v: nat, m: nat, size: nat)
    requires v < Pow256(m) && m <= size
    ensures LittleEndian(v, size) == LittleEndian(v, m) + Repeat(0, size - m)
    decreases m, size
  {
    if m == 0 {
      if size > 0 {
        Wide(0, 0, size - 1);
        FillMore(0, size - 1);
      }
    } else {
      DigitsFit(v, m);
      Wide(v / 256, m - 1, size - 1);
      assert LittleEndian(v, size) == [(v % 256) as byte] + (LittleEndian(v / 256, m - 1) + Repeat(0, size - m));
    }
  }

  lemma {:induction false} HighestByte(v: nat, m: nat)
    requires m >= 1 && Pow256(m - 1) <= v < Pow256(m)
    ensures LittleEndian(v, m)[m - 1] != 0
    decreases m
  {
    if m == 1 {
      ByteBack(v % 256);
    } else {
      DigitsFit(v, m);
      HighestByte(v / 256, m - 1);
    }
  }

  // The code of an unsigned number that m bytes hold and fewer do not: a set flag for each byte above
  // them, and then a clear flag and those bytes; for a single byte a clear flag and its eight digits, or a
  // set flag and its last four below 16.
  lemma UnsignedCode(v: nat, m: nat, size: nat)
    requires 1 <= m <= size && v < Pow256(m) && (m > 1 ==> v >= Pow256(m - 1))
    ensures Compress(LittleEndian(v, size), true) ==
            Ones(size - m) +
            if m > 1 then [false] + AllBits(LittleEndian(v, m))
            else if v < 16 then [true] + Digits(v, 4)
            else [false] + Digits(v, 8)
    ensures |Compress(LittleEndian(v, size), true)| ==
            if v < 16 then size + 4 else if v < 256 then size + 8 else size - m + 1 + 8 * m
  {
    hide Compress, TakeBits;
    Wide(v, m, size);
    FlagsFirst(LittleEndian(v, m), size - m, true);
    assert Pow256(1) == 256;
    if m > 1 {
      HighestByte(v, m);
      WholeByteForm(LittleEndian(v, m), true);
      PowerOrder(1, m - 1);
    } else {
      ByteBack(v);
      assert LittleEndian(v, 1) == [v as byte];
      LowByteForm(v as byte, true);
    }
  }

  lemma {:induction false} PowerOrder(j: nat, k: nat)
    requires j <= k
    ensures Pow256(j) <= Pow256(k)
  {
    if j < k {
      PowerOrder(j, k - 1);
    }
  }

  lemma {:induction false} AllOnes(size: nat)
    ensures LittleEndian(Pow256(size) - 1, size) == Repeat(0xFF, size)
  {
    if size == 0 {
      NoDigits(Pow256(0) - 1);
    } else {
      hide LittleEndian;
      NegativeDigit(0, size);
      AllOnes(size - 1);
      FillMore(0xFF, size - 1);
    }
  }

  // the bytes of -1 - w in two's complement mirror those of w
  lemma {:induction false} WideNegative(w: nat, m: nat, size: nat)
    requires w < Pow256(m) && m <= size
    ensures w < Pow256(size)
    ensures LittleEndian(Pow256(size) - 1 - w, size) == LittleEndian(Pow256(m) - 1 - w, m) + Repeat(0xFF, size - m)
    decreases m
  {
    hide LittleEndian;
    PowerOrder(m, size);
    if m == 0 {
      AllOnes(size);
      NoDigits(0);
      assert [] + Repeat(0xFF, size) == Repeat(0xFF, size);
    } else {
      hide Pow256;
      NegativeDigit(w, size);
      NegativeDigit(w, m);
      WideNegative(w / 256, m - 1, size - 1);
      FirstOfThree([(255 - w % 256) as byte], LittleEndian(Pow256(m - 1) - 1 - w / 256, m - 1), Repeat(0xFF, size - m));
    }
  }

  lemma FirstOfThree(a: seq<byte>, b: seq<byte>, c: seq<byte>)
    ensures a + (b + c) == (a + b) + c
  {
  }

  lemma NoDigits(v: nat)
    ensures LittleEndian(v, 0) == []
  {
  }

  lemma NegativeDigit(w: nat, size: nat)
    requires size > 0 && w < Pow256(size)
    ensures w / 256 < Pow256(size - 1)
    ensures LittleEndian(Pow256(size) - 1 - w, size) ==
            [(255 - w % 256) as byte] + LittleEndian(Pow256(size - 1) - 1 - w / 256, size - 1)
  {
    Mirrored(w, Pow256(size - 1));
  }

  lemma Mirrored(w: nat, p: nat)
    requires w < 256 * p
    ensures w / 256 < p
    ensures (256 * p - 1 - w) % 256 == 255 - w % 256 && (256 * p - 1 - w) / 256 == p - 1 - w / 256
  {
    var q, r := w / 256, w % 256;
    assert w == 256 * q + r;
    assert 256 * p - 1 - w == 256 * (p - 1 - q) + (255 - r);
  }

  lemma {:induction false} HighestNegativeByte(w: nat, m: nat)
    requires m >= 1 && Pow256(m - 1) <= w < Pow256(m)
    ensures LittleEndian(Pow256(m) - 1 - w, m)[m - 1] != 0xFF
    decreases m
  {
    hide LittleEndian;
    NegativeDigit(w, m);
    if m == 1 {
      assert Pow256(0) == 1;
      ByteBack(255 - w % 256);
    } else {
      DigitsFit(w, m);
      HighestNegativeByte(w / 256, m - 1);
    }
  }

  // The code of the signed number -1 - w, where m bytes hold w and fewer do not
  lemma SignedCode(w: nat, m: nat, size: nat)
    requires 1 <= m <= size && w < Pow256(m) && (m > 1 ==> w >= Pow256(m - 1))
    ensures w < Pow256(size)
    ensures Compress(LittleEndian(Pow256(size) - 1 - w, size), false) ==
            Ones(size - m) +
            if m > 1 then [false] + AllBits(LittleEndian(Pow256(m) - 1 - w, m))
            else if w < 16 then [true] + Digits(255 - w, 4)
            else [false] + Digits(255 - w, 8)
    ensures |Compress(LittleEndian(Pow256(size) - 1 - w, size), false)| ==
            if w < 16 then size + 4 else if w < 256 then size + 8 else size - m + 1 + 8 * m
  {
    hide Compress, TakeBits, Digits;
    WideNegative(w, m, size);
    FlagsFirst(LittleEndian(Pow256(m) - 1 - w, m), size - m, false);
    assert Pow256(1) == 256;
    if m > 1 {
      HighestNegativeByte(w, m);
      WholeByteForm(LittleEndian(Pow256(m) - 1 - w, m), false);
      PowerOrder(1, m - 1);
    } else {
      ByteBack(255 - w);
      assert LittleEndian(255 - w, 1) == [(255 - w) as byte];
      LowByteForm((255 - w) as byte, false);
    }
  }

  // What is read: after the flags of the elided bytes a clear flag and the bytes that are left
  lemma {:induction false} ReadsBytes(low: seq<byte>, high: nat, unsignedData: bool, rest: seq<bool>)
    requires low != []
    ensures Decompress(Ones(high) + ([false] + AllBits(low) + rest), |low| + high, unsignedData) ==
            Some(Decoded(low + Repeat(if unsignedData then 0 else 0xFF, high), high + 1 + 8 * |low|))
    decreases high
  {
    hide Pack, AllBits, NibbleFrom;
    var bits := [false] + AllBits(low) + rest;
    AllBitsLength(low);
    if high == 0 {
      PackAll(low);
      FlagFirst(false, AllBits(low), rest);
      assert Ones(0) + bits == bits && low + Repeat(if unsignedData then 0 else 0xFF, 0) == low;
    } else {
      var filler: byte := if unsignedData then 0 else 0xFF;
      ReadsBytes(low, high - 1, unsignedData, rest);
      FlagPassed(high, bits);
      FillMore(filler, high - 1);
      FirstOfThree(low, Repeat(filler, high - 1), [filler]);
    }
  }

  lemma FlagPassed(high: nat, bits: seq<bool>)
    requires high > 0
    ensures (Ones(high) + bits)[0] && (Ones(high) + bits)[1..] == Ones(high - 1) + bits
  {
    OneMoreFlag(high - 1);
  }

  // or a set flag and four digits of the lowest byte
  lemma {:induction false} ReadsNibble(nibble: seq<bool>, high: nat, unsignedData: bool, rest: seq<bool>)
    returns (b: byte)
    requires |nibble| == 4
    ensures b as nat == Number(nibble) + if unsignedData then 0 else 240
    ensures Decompress(Ones(high) + ([true] + nibble + rest), 1 + high, unsignedData) ==
            Some(Decoded([b] + Repeat(if unsignedData then 0 else 0xFF, high), high + 5))
    decreases high
  {
    hide NibbleFrom, Number;
    var bits := [true] + nibble + rest;
    if high == 0 {
      b := NibbleFrom(nibble) | HalfByteMatch(unsignedData);
      NibbleNumber(nibble, unsignedData);
      FlagFirst(true, nibble, rest);
      assert Ones(0) + bits == bits && [b] + Repeat(if unsignedData then 0 else 0xFF, 0) == [b];
    } else {
      var filler: byte := if unsignedData then 0 else 0xFF;
      b := ReadsNibble(nibble, high - 1, unsignedData, rest);
      FlagPassed(high, bits);
      FillMore(filler, high - 1);
      FirstOfThree([b], Repeat(filler, high - 1), [filler]);
    }
  }

  lemma NibbleNumber(nibble: seq<bool>, unsignedData: bool)
    requires |nibble| == 4
    ensures (NibbleFrom(nibble) | HalfByteMatch(unsignedData)) as nat ==
              Number(nibble) + if unsignedData then 0 else 240
  {
    hide Number, ByteFrom;
    var low := NibbleFrom(nibble);
    NibbleDigits(nibble);
    ByteNumber(low);
    LeadingZeros(4, nibble);
    DigitsBack(nibble);
    assert Power2(4) == 16;
    assert Number(Zeros(4) + nibble) == Number(nibble);
    assert low as nat == Number(nibble);
    BelowByte(low, 16);
    assert 16 as byte as nat == 16;
    HighOnes(low);
  }

  lemma NibbleDigits(nibble: seq<bool>)
    requires |nibble| == 4
    ensures AllBits([NibbleFrom(nibble)]) == Zeros(4) + nibble
  {
    hide BitAt, ByteFrom, ShiftRight;
    forall i: nat | i < 8
      ensures BitAt(NibbleFrom(nibble), i) == (i >= 4 && nibble[i - 4])
    {
      ShiftRightBit(ByteFrom(nibble), 4, i);
      if i >= 4 {
        ByteFromBit(nibble, i - 4);
      }
    }
  }

  lemma HighOnes(b: byte)
    requires b < 16
    ensures (b | 0xF0) as nat == b as nat + 240 && b | 0 == b
  {
    assert b | 0xF0 == b + 240;
    var c := ByteFor(b as nat + 240);
    SameByte(b);
    SameByte(c);
    SumOfBytes(b);
  }

  lemma SumOfBytes(b: byte)
    requires b < 16
    ensures (b + 240) as nat == b as nat + 240
  {
  }

  // how many flags in front are set, at most k
  function SetFlags(bits: seq<bool>, k: nat): (j: nat)
    ensures j <= k && j <= |bits| && bits[..j] == Ones(j)
    ensures j < k && j < |bits| ==> !bits[j]
  {
    if k == 0 || bits == [] || !bits[0] then 0 else
      OneMoreFlag(SetFlags(bits[1..], k - 1));
      1 + SetFlags(bits[1..], k - 1)
  }

  // A value of k bytes is there exactly when the flags, and what they announce, are. Otherwise the
  // cursor is left behind the flags that could be read.
  lemma {:induction false} ReadsExactly(bits: seq<bool>, k: nat, unsignedData: bool)
    requires k >= 1
    ensures var j := SetFlags(bits, k);
            var whole := if j == k then k + 4 else j + 1 + 8 * (k - j);
            && (Decompress(bits, k, unsignedData).Some? <==> |bits| >= whole)
            && Taken(bits, k) == if |bits| >= whole then whole else if j < k && j < |bits| then j + 1 else j
    decreases k
  {
    hide Pack, NibbleFrom;
    if bits != [] && bits[0] && k > 1 {
      ReadsExactly(bits[1..], k - 1, unsignedData);
    }
  }
}
