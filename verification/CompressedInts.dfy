/** The byte-eliding integer code of WriteCompressed and ReadCompressed, as functions on bit strings.
    An integer is its bytes, least significant first. */
module CompressedInts {
  import opened Bytes

  datatype Option<+T> = None | Some(value: T)

  // a decoded value and the number of bits it took
  datatype Decoded = Decoded(value: seq<byte>, consumed: nat)

  // the value an elided high byte stands for, and the one an elided high nibble stands for
  function ByteMatch(unsignedData: bool): byte {
    if unsignedData then 0 else 0xFF
  }

  function HalfByteMatch(unsignedData: bool): byte {
    if unsignedData then 0 else 0xF0
  }

  function Compress(v: seq<byte>, unsignedData: bool): (bits: seq<bool>)
    requires |v| >= 1
    decreases |v|
  {
    var top := |v| - 1;
    if top == 0 then
      if v[0] & 0xF0 == HalfByteMatch(unsignedData) then [true] + Payload(v, 4, true) else [false] + AllBits(v)
    else if v[top] == ByteMatch(unsignedData) then
      [true] + Compress(v[..top], unsignedData)
    else
      [false] + AllBits(v)
  }

  // the low nibble stored by a right-aligned read of four bits
  function NibbleFrom(bits: seq<bool>): byte
    requires |bits| == 4
  {
    ShiftRight(ByteFrom(bits), 4)
  }

  function Decompress(bits: seq<bool>, k: nat, unsignedData: bool): (r: Option<Decoded>)
    requires k >= 1
    ensures r.Some? ==> |r.value.value| == k && r.value.consumed <= |bits|
    decreases k
  {
    if |bits| < 1 then
      None
    else if k > 1 && bits[0] then
      WithHigh(Decompress(bits[1..], k - 1, unsignedData), [ByteMatch(unsignedData)])
    else if bits[0] then
      if |bits| < 5 then None else Some(Decoded([NibbleFrom(bits[1..5]) | HalfByteMatch(unsignedData)], 5))
    else
      if |bits| < 1 + 8 * k then None else Some(Decoded(Pack(bits[1..1 + 8 * k]), 1 + 8 * k))
  }

  // how far reading a value of k bytes moves the cursor, whether or not the value is all there: a read
  // that fails has consumed its flags
  function Taken(bits: seq<bool>, k: nat): (n: nat)
    requires k >= 1
    ensures n <= |bits|
    decreases k
  {
    if |bits| < 1 then 0
    else if k > 1 && bits[0] then 1 + Taken(bits[1..], k - 1)
    else if |bits| < (if bits[0] then 5 else 1 + 8 * k) then 1
    else if bits[0] then 5 else 1 + 8 * k
  }

  lemma {:induction false} TakenIsConsumed(bits: seq<bool>, k: nat, unsignedData: bool)
    requires k >= 1 && Decompress(bits, k, unsignedData).Some?
    ensures Decompress(bits, k, unsignedData).value.consumed == Taken(bits, k)
    decreases k
  {
    hide Pack, NibbleFrom, ByteMatch, HalfByteMatch;
    if k > 1 && bits[0] {
      TakenIsConsumed(bits[1..], k - 1, unsignedData);
    }
  }

  lemma TakenStep(bits: seq<bool>, k: nat)
    requires k > 1
    ensures Taken(bits, k) == if bits == [] then 0
                              else if bits[0] then 1 + Taken(bits[1..], k - 1)
                              else Taken([false] + bits[1..], k)
  {
    if bits != [] && !bits[0] {
      assert [false] + bits[1..] == bits;
    }
  }

  // how many high bytes are elided, the lowest byte never being one of them
  function Elided(v: seq<byte>, unsignedData: bool): (j: nat)
    requires |v| >= 1
    ensures j <= |v| - 1
    ensures forall i :: |v| - j <= i < |v| ==> v[i] == ByteMatch(unsignedData)
    ensures j < |v| - 1 ==> v[|v| - 1 - j] != ByteMatch(unsignedData)
    decreases |v|
  {
    if |v| == 1 || v[|v| - 1] != ByteMatch(unsignedData) then 0 else 1 + Elided(v[..|v| - 1], unsignedData)
  }

  lemma NibbleBack(b: byte, unsignedData: bool)
    requires b & 0xF0 == HalfByteMatch(unsignedData)
    ensures NibbleFrom(Payload([b], 4, true)) | HalfByteMatch(unsignedData) == b
  {
    hide BitAt, ShiftRight, ShiftLeft, ByteFrom;
    var bits, h := Payload([b], 4, true), HalfByteMatch(unsignedData);
    var low := NibbleFrom(bits);
    forall i: nat | i < 8
      ensures BitAt(low | h, i) == BitAt(b, i)
    {
      OrBit(low, h, i);
      ShiftRightBit(ByteFrom(bits), 4, i);
      HighNibble(b, h, i);
      if i >= 4 {
        ByteFromBit(bits, i - 4);
        ShiftLeftBit(b, 4, i - 4);
      }
    }
    SameBitsSameByte(low | h, b);
  }

  lemma HighNibble(b: byte, h: byte, i: nat)
    requires b & 0xF0 == h && (h == 0 || h == 0xF0) && i < 8
    ensures BitAt(h, i) == (i < 4 && BitAt(b, i))
  {
    hide BitAt;
    BitMasks(b);
    BitMasks(h);
  }

  // ReadCompressed inverts WriteCompressed for every width and both modes, whatever follows.
  lemma {:induction false} RoundTrip(v: seq<byte>, unsignedData: bool, rest: seq<bool>)
    requires |v| >= 1
    ensures Decompress(Compress(v, unsignedData) + rest, |v|, unsignedData) ==
            Some(Decoded(v, |Compress(v, unsignedData)|))
    decreases |v|
  {
    var top := |v| - 1;
    if top > 0 && v[top] == ByteMatch(unsignedData) {
      RoundTrip(v[..top], unsignedData, rest);
      RoundTripElided(v, unsignedData, rest);
    } else if top == 0 && v[0] & 0xF0 == HalfByteMatch(unsignedData) {
      RoundTripNibble(v, unsignedData, rest);
    } else {
      RoundTripWhole(v, unsignedData, rest);
    }
  }

  lemma RoundTripElided(v: seq<byte>, unsignedData: bool, rest: seq<bool>)
    requires |v| > 1 && v[|v| - 1] == ByteMatch(unsignedData)
    requires var low := v[..|v| - 1];
             Decompress(Compress(low, unsignedData) + rest, |low|, unsignedData) ==
               Some(Decoded(low, |Compress(low, unsignedData)|))
    ensures Decompress(Compress(v, unsignedData) + rest, |v|, unsignedData) ==
            Some(Decoded(v, |Compress(v, unsignedData)|))
  {
    hide Pack, Payload, NibbleFrom, AllBits, HalfByteMatch;
    var top := |v| - 1;
    FlagFirst(true, Compress(v[..top], unsignedData), rest);
    assert v[..top] + [v[top]] == v;
  }

  lemma RoundTripNibble(v: seq<byte>, unsignedData: bool, rest: seq<bool>)
    requires |v| == 1 && v[0] & 0xF0 == HalfByteMatch(unsignedData)
    ensures Decompress(Compress(v, unsignedData) + rest, 1, unsignedData) ==
            Some(Decoded(v, |Compress(v, unsignedData)|))
  {
    hide Pack, Payload, NibbleFrom, AllBits, HalfByteMatch, ByteMatch;
    assert v == [v[0]];
    NibbleBack(v[0], unsignedData);
    FlagFirst(true, Payload(v, 4, true), rest);
  }

  lemma RoundTripWhole(v: seq<byte>, unsignedData: bool, rest: seq<bool>)
    requires |v| >= 1
    requires if |v| == 1 then v[0] & 0xF0 != HalfByteMatch(unsignedData) else v[|v| - 1] != ByteMatch(unsignedData)
    ensures Decompress(Compress(v, unsignedData) + rest, |v|, unsignedData) ==
            Some(Decoded(v, |Compress(v, unsignedData)|))
  {
    hide Pack, Payload, NibbleFrom, AllBits, HalfByteMatch, ByteMatch;
    PackAll(v);
    AllBitsLength(v);
    FlagFirst(false, AllBits(v), rest);
  }

  lemma FlagFirst(flag: bool, x: seq<bool>, rest: seq<bool>)
    ensures var bits := [flag] + x + rest;
            bits[0] == flag && bits[1..] == x + rest && bits[1..1 + |x|] == x
  {
  }

  lemma AllBitsLength(v: seq<byte>)
    ensures |AllBits(v)| == 8 * |v|
  {
  }

  // The exact length: one flag bit for each elided byte, then either a flag and the remaining bytes,
  // or, when only the lowest byte is left, a flag and four or eight bits.
  lemma {:induction false} CompressedLength(v: seq<byte>, unsignedData: bool)
    requires |v| >= 1
    ensures var j, k := Elided(v, unsignedData), |v|;
            |Compress(v, unsignedData)| ==
            if j < k - 1 then j + 1 + 8 * (k - j)
            else if v[0] & 0xF0 == HalfByteMatch(unsignedData) then k + 4 else k + 8
    decreases |v|
  {
    hide TakeBits, AllBits;
    var top := |v| - 1;
    AllBitsLength(v);
    if top > 0 && v[top] == ByteMatch(unsignedData) {
      CompressedLength(v[..top], unsignedData);
    }
  }

  // a decoded low part completed with the high bytes already known
  function WithHigh(r: Option<Decoded>, high: seq<byte>): Option<Decoded> {
    match r
    case None => None
    case Some(d) => Some(Decoded(d.value + high, d.consumed + |high|))
  }

  // decoding all of a value comes down to decoding its low part, the high bytes and read bits being known
  predicate Resumed(all: Option<Decoded>, low: Option<Decoded>, high: seq<byte>, read: int) {
    && (all.Some? <==> low.Some?)
    && (all.Some? ==> all.value.value == low.value.value + high && all.value.consumed == low.value.consumed + read)
  }

  // the two parts of a value that was read in two goes
  lemma WholeValue(all: Option<Decoded>, rest: Option<Decoded>, low: seq<byte>, high: seq<byte>, read: int)
    requires Resumed(all, rest, high, read)
    ensures all.Some? <==> rest.Some?
    ensures rest.Some? && low == rest.value.value ==>
              all.value.value == low + high && all.value.consumed == read + rest.value.consumed
  {
  }

  lemma ResumedSelf(all: Option<Decoded>)
    ensures Resumed(all, all, [], 0)
  {
    if all.Some? {
      assert all.value.value + [] == all.value.value;
    }
  }

  lemma DecompressStep(bits: seq<bool>, k: nat, unsignedData: bool, all: Option<Decoded>, high: seq<byte>, read: int)
    requires k > 1 && Resumed(all, Decompress(bits, k, unsignedData), high, read)
    ensures bits == [] ==> all.None?
    ensures bits != [] && bits[0] ==>
            Resumed(all, Decompress(bits[1..], k - 1, unsignedData), [ByteMatch(unsignedData)] + high, read + 1)
    ensures bits != [] && !bits[0] ==>
            var low := match Decompress([false] + bits[1..], k, unsignedData)
                       case None => None
                       case Some(d) => Some(Decoded(d.value, d.consumed - 1));
            Resumed(all, low, high, read + 1)
  {
    hide Pack, ByteMatch;
    if bits != [] && !bits[0] {
      assert [false] + bits[1..] == bits;
    }
  }
}
