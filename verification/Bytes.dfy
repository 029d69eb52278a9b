/** Bytes seen as eight bits, most significant first, and byte buffers seen as bit strings.
    The two functions PutByte and GetByte are the bodies of the stream's write and read loops. */
module Bytes {

  type byte = bv8

  // BITS_TO_BYTES and BYTES_TO_BITS
  function BytesFor(bits: nat): nat {
    (bits + 7) / 8
  }

  // bit i of a byte, counted from the most significant
  predicate BitAt(b: byte, i: nat)
    requires i < 8
    decreases i
  {
    if i == 0 then b & 0x80 != 0 else BitAt(b << 1, i - 1)
  }

  // b >> m
  function ShiftRight(b: byte, m: nat): byte
    requires m <= 8
    decreases m
  {
    if m == 0 then b else ShiftRight(b >> 1, m - 1)
  }

  // (unsigned char)(b << m)
  function ShiftLeft(b: byte, m: nat): byte
    requires m <= 8
    decreases m
  {
    if m == 0 then b else ShiftLeft(b << 1, m - 1)
  }

  // bit p of a buffer
  predicate Bit(s: seq<byte>, p: nat)
    requires p < 8 * |s|
  {
    BitAt(s[p / 8], p % 8)
  }

  // the first n bits of a buffer
  function TakeBits(s: seq<byte>, n: nat): (bits: seq<bool>)
    requires n <= 8 * |s|
    ensures |bits| == n
  {
    seq(n, p requires 0 <= p < n => Bit(s, p))
  }

  function AllBits(s: seq<byte>): seq<bool> {
    TakeBits(s, 8 * |s|)
  }

  // no bit is set between position n and the next byte boundary
  predicate ZeroFrom(s: seq<byte>, n: nat)
    requires n <= 8 * |s|
  {
    forall p: nat :: n <= p < 8 * BytesFor(n) ==> !Bit(s, p)
  }

  // The buffer with a partial last byte moved to the left when the caller right-aligned it
  function LeftAligned(input: seq<byte>, n: nat, rightAligned: bool): (s: seq<byte>)
    requires n <= 8 * |input|
    ensures |s| == |input|
  {
    if rightAligned && n % 8 != 0 then input[n / 8 := ShiftLeft(input[n / 8], 8 - n % 8)] else input
  }

  // The bits a call WriteBits(input, n, rightAligned) asks for
  function Payload(input: seq<byte>, n: int, rightAligned: bool): (bits: seq<bool>)
    requires n <= 8 * |input|
    ensures |bits| == if n <= 0 then 0 else n
  {
    if n <= 0 then [] else TakeBits(LeftAligned(input, n, rightAligned), n)
  }

  lemma BitMasks(b: byte)
    ensures BitAt(b, 0) == (b & 0x80 != 0) && BitAt(b, 1) == (b & 0x40 != 0)
    ensures BitAt(b, 2) == (b & 0x20 != 0) && BitAt(b, 3) == (b & 0x10 != 0)
    ensures BitAt(b, 4) == (b & 0x08 != 0) && BitAt(b, 5) == (b & 0x04 != 0)
    ensures BitAt(b, 6) == (b & 0x02 != 0) && BitAt(b, 7) == (b & 0x01 != 0)
  {
    assert forall c: byte :: BitAt(c, 1) == (c & 0x40 != 0);
    assert forall c: byte :: BitAt(c, 2) == (c & 0x20 != 0);
    assert forall c: byte :: BitAt(c, 3) == (c & 0x10 != 0);
    assert forall c: byte :: BitAt(c, 4) == (c & 0x08 != 0);
    assert forall c: byte :: BitAt(c, 5) == (c & 0x04 != 0);
    assert forall c: byte :: BitAt(c, 6) == (c & 0x02 != 0);
    assert forall c: byte :: BitAt(c, 7) == (c & 0x01 != 0);
  }

  lemma {:induction false} ShiftRightBit(b: byte, m: nat, i: nat)
    requires m <= 8 && i < 8
    ensures BitAt(ShiftRight(b, m), i) == (m <= i && BitAt(b, i - m))
    decreases m
  {
    if m > 0 {
      ShiftRightBit(b >> 1, m - 1, i);
      BitMasks(b);
      BitMasks(b >> 1);
    }
  }

  lemma {:induction false} ShiftLeftBit(b: byte, m: nat, i: nat)
    requires m <= 8 && i < 8
    ensures BitAt(ShiftLeft(b, m), i) == (m + i < 8 && BitAt(b, i + m))
    decreases m
  {
    if m > 0 {
      ShiftLeftBit(b << 1, m - 1, i);
      BitMasks(b << 1);
    }
  }

  lemma {:induction false} OrBit(a: byte, b: byte, i: nat)
    requires i < 8
    ensures BitAt(a | b, i) == (BitAt(a, i) || BitAt(b, i))
    decreases i
  {
    if i > 0 {
      OrBit(a << 1, b << 1, i - 1);
      assert (a | b) << 1 == (a << 1) | (b << 1);
    }
  }

  lemma SameBitsSameByte(a: byte, b: byte)
    requires forall i: nat :: i < 8 ==> BitAt(a, i) == BitAt(b, i)
    ensures a == b
  {
    BitMasks(a);
    BitMasks(b);
  }

  // The bits and a zero tail determine every byte in use.
  lemma BitsDetermineBytes(s: seq<byte>, t: seq<byte>, n: nat)
    requires n <= 8 * |s| && n <= 8 * |t|
    requires TakeBits(s, n) == TakeBits(t, n)
    requires ZeroFrom(s, n) && ZeroFrom(t, n)
    ensures s[..BytesFor(n)] == t[..BytesFor(n)]
  {
    forall k | 0 <= k < BytesFor(n)
      ensures s[k] == t[k]
    {
      forall i: nat | i < 8
        ensures BitAt(s[k], i) == BitAt(t[k], i)
      {
        var p := 8 * k + i;
        assert BitAt(s[k], i) == Bit(s, p) && BitAt(t[k], i) == Bit(t, p);
        if p < n {
          assert Bit(s, p) == TakeBits(s, n)[p] == Bit(t, p);
        }
      }
      SameBitsSameByte(s[k], t[k]);
    }
  }

  // where bit i of a byte lands when the byte starts at bit position at
  lemma Straddle(at: nat, i: nat)
    requires i < 8
    ensures (at + i) / 8 == (if at % 8 + i < 8 then at / 8 else at / 8 + 1)
    ensures (at + i) % 8 == (if at % 8 + i < 8 then at % 8 + i else at % 8 + i - 8)
  {
  }

  // One round of the write loop: the leading n bits of b go to position used, over at most two bytes.
  function PutByte(s: seq<byte>, used: nat, b: byte, n: nat): (r: seq<byte>)
    requires 1 <= n <= 8 && used + n <= 8 * |s|
    ensures |r| == |s|
  {
    var k, m := used / 8, used % 8;
    if m == 0 then
      s[k := b]
    else
      var first := s[k := s[k] | ShiftRight(b, m)];
      if 8 - m < n then first[k + 1 := ShiftLeft(b, 8 - m)] else first
  }

  lemma MergeBit(a: byte, b: byte, m: nat, i: nat)
    requires m < 8 && i < 8
    ensures BitAt(a | ShiftRight(b, m), i) == (BitAt(a, i) || (m <= i && BitAt(b, i - m)))
  {
    OrBit(a, ShiftRight(b, m), i);
    ShiftRightBit(b, m, i);
  }

  // what a buffer holds at position p once the byte b was put at position used
  predicate PutBit(s: seq<byte>, used: nat, b: byte, p: nat)
    requires p < 8 * |s|
  {
    if p < used then Bit(s, p) else p - used < 8 && BitAt(b, p - used)
  }

  lemma PutByteFirst(s: seq<byte>, used: nat, b: byte, n: nat, p: nat)
    requires 1 <= n <= 8 && used + n <= 8 * |s|
    requires p / 8 == used / 8
    requires used <= p && used % 8 != 0 ==> !Bit(s, p)
    ensures Bit(PutByte(s, used, b, n), p) == PutBit(s, used, b, p)
  {
    hide BitAt, ShiftRight, ShiftLeft;
    var k, m, i := used / 8, used % 8, p % 8;
    MergeBit(s[k], b, m, i);
    assert p - used == i - m;
  }

  lemma PutByteSecond(s: seq<byte>, used: nat, b: byte, n: nat, p: nat)
    requires 1 <= n <= 8 && used + n <= 8 * |s|
    requires used / 8 < p / 8 && p < 8 * BytesFor(used + n)
    ensures Bit(PutByte(s, used, b, n), p) == PutBit(s, used, b, p)
  {
    var k, m, i := used / 8, used % 8, p % 8;
    assert m != 0 && p - used == i + (8 - m);
    ShiftLeftBit(b, 8 - m, i);
  }

  // every bit of the buffer after PutByte, up to the end of the last byte touched
  lemma PutByteBit(s: seq<byte>, used: nat, b: byte, n: nat, p: nat)
    requires 1 <= n <= 8 && used + n <= 8 * |s|
    requires ZeroFrom(s, used)
    requires p < 8 * BytesFor(used + n)
    ensures Bit(PutByte(s, used, b, n), p) == PutBit(s, used, b, p)
  {
    if p / 8 == used / 8 {
      PutByteFirst(s, used, b, n, p);
    } else if used / 8 < p / 8 {
      PutByteSecond(s, used, b, n, p);
    }
  }

  lemma PutByteBits(s: seq<byte>, used: nat, b: byte, n: nat)
    requires 1 <= n <= 8 && used + n <= 8 * |s|
    requires ZeroFrom(s, used)
    ensures TakeBits(PutByte(s, used, b, n), used + n) == TakeBits(s, used) + TakeBits([b], n)
  {
    var r := PutByte(s, used, b, n);
    forall p: nat | p < used + n
      ensures TakeBits(r, used + n)[p] == (TakeBits(s, used) + TakeBits([b], n))[p]
    {
      PutByteBit(s, used, b, n, p);
    }
  }

  // every store of up to eight bits at that position appends exactly those bits
  ghost predicate StoresAppend(s: seq<byte>, used: nat)
    requires used + 8 <= 8 * |s|
  {
    forall b: byte, n: nat {:trigger PutByte(s, used, b, n)} :: 1 <= n <= 8 ==>
      TakeBits(PutByte(s, used, b, n), used + n) == TakeBits(s, used) + TakeBits([b], n)
  }

  // storing zeros in the rest of a started byte leaves its bits as they are
  lemma StoredZeros(s: seq<byte>, used: nat, p: nat)
    requires used % 8 != 0 && used + 8 <= 8 * |s| && used <= p < 8 * BytesFor(used)
    ensures Bit(PutByte(s, used, 0, 8 - used % 8), p) == Bit(s, p)
  {
    hide BitAt, ShiftRight;
    var m, i := used % 8, p % 8;
    assert p / 8 == used / 8;
    MergeBit(s[used / 8], 0, m, i);
    if m <= i {
      ZeroByte(i - m);
    }
  }

  lemma ZeroByte(i: nat)
    requires i < 8
    ensures !BitAt(0, i)
  {
    BitMasks(0);
  }

  // The condition on the tail is needed: with a bit set between the position and the byte boundary, some
  // store appends a wrong bit.
  lemma StoresAppendIff(s: seq<byte>, used: nat)
    requires used + 8 <= 8 * |s|
    ensures StoresAppend(s, used) <==> ZeroFrom(s, used)
  {
    hide PutByte, Bit;
    if ZeroFrom(s, used) {
      forall b: byte, n: nat | 1 <= n <= 8
        ensures TakeBits(PutByte(s, used, b, n), used + n) == TakeBits(s, used) + TakeBits([b], n)
      {
        PutByteBits(s, used, b, n);
      }
    } else {
      var p: nat :| used <= p < 8 * BytesFor(used) && Bit(s, p);
      var n := 8 - used % 8;
      StoredZeros(s, used, p);
      NoBits(p - used);
      assert TakeBits(PutByte(s, used, 0, n), used + n)[p];
      assert !(TakeBits(s, used) + TakeBits([0], n))[p];
    }
  }

  lemma NoBits(i: nat)
    requires i < 8
    ensures !Bit([0], i)
  {
    hide BitAt;
    ZeroByte(i);
  }

  // The zero tail survives exactly when no bit of b past the n that count lands in the last byte.
  predicate CleanTail(used: nat, b: byte, n: nat) {
    forall i: nat :: n <= i < 8 && used + i < 8 * BytesFor(used + n) ==> !BitAt(b, i)
  }

  lemma PutByteTail(s: seq<byte>, used: nat, b: byte, n: nat)
    requires 1 <= n <= 8 && used + n <= 8 * |s|
    requires ZeroFrom(s, used)
    ensures ZeroFrom(PutByte(s, used, b, n), used + n) <==> CleanTail(used, b, n)
  {
    var r, end := PutByte(s, used, b, n), 8 * BytesFor(used + n);
    forall p: nat | used + n <= p < end
      ensures Bit(r, p) == (p - used < 8 && BitAt(b, p - used))
    {
      PutByteBit(s, used, b, n, p);
    }
    if ZeroFrom(r, used + n) {
      forall i: nat | n <= i < 8 && used + i < end
        ensures !BitAt(b, i)
      {
        assert !Bit(r, used + i);
      }
    }
  }

  // One round of the read loop, before the final right shift: n bits (8 if n is larger) from position off
  function GetByte(s: seq<byte>, off: nat, n: nat): byte
    requires 1 <= n && off + n <= 8 * |s|
  {
    var k, m := off / 8, off % 8;
    if m > 0 && n > 8 - m then ShiftLeft(s[k], m) | ShiftRight(s[k + 1], 8 - m) else ShiftLeft(s[k], m)
  }

  lemma GetByteBit(s: seq<byte>, off: nat, n: nat, i: nat)
    requires 1 <= n && off + n <= 8 * |s|
    requires i < 8 && i < n
    ensures BitAt(GetByte(s, off, n), i) == Bit(s, off + i)
  {
    hide BitAt, ShiftLeft, ShiftRight;
    var k, m := off / 8, off % 8;
    Straddle(off, i);
    var first := ShiftLeft(s[k], m);
    ShiftLeftBit(s[k], m, i);
    if m > 0 && n > 8 - m {
      var second := ShiftRight(s[k + 1], 8 - m);
      ShiftRightBit(s[k + 1], 8 - m, i);
      OrBit(first, second, i);
    }
  }

  // testing one bit through a mask shifted by a run-time amount
  lemma TestBit(b: byte, i: nat)
    requires i < 8
    ensures (b & ShiftRight(0x80, i) != 0) == BitAt(b, i)
  {
    BitMasks(b);
    assert ShiftRight(0x80, 0) == 0x80 && ShiftRight(0x80, 1) == 0x40 && ShiftRight(0x80, 2) == 0x20 &&
      ShiftRight(0x80, 3) == 0x10;
    assert ShiftRight(0x80, 4) == 0x08 && ShiftRight(0x80, 5) == 0x04 && ShiftRight(0x80, 6) == 0x02 &&
      ShiftRight(0x80, 7) == 0x01;
  }

  lemma {:induction false} ShiftRightZero(m: nat)
    requires m <= 8
    ensures ShiftRight(0, m) == 0
  {
    if m > 0 {
      ShiftRightZero(m - 1);
    }
  }

  // The bytes a read of n bits at off stores; a partial last byte is moved right on request
  function Fetched(s: seq<byte>, off: nat, n: nat, alignRight: bool): (r: seq<byte>)
    requires off + n <= 8 * |s|
    ensures |r| == BytesFor(n)
  {
    seq(BytesFor(n), k requires 0 <= k < BytesFor(n) => FetchByte(s, off + 8 * k, n - 8 * k, alignRight))
  }

  function FetchByte(s: seq<byte>, off: nat, n: nat, alignRight: bool): byte
    requires 1 <= n && off + n <= 8 * |s|
  {
    if n < 8 && alignRight then ShiftRight(GetByte(s, off, n), 8 - n) else GetByte(s, off, n)
  }

  lemma ShiftBack(v: byte, m: nat, i: nat)
    requires m <= 8 && i + m < 8
    ensures BitAt(ShiftLeft(ShiftRight(v, m), m), i) == BitAt(v, i)
  {
    ShiftLeftBit(ShiftRight(v, m), m, i);
    ShiftRightBit(v, m, i + m);
  }

  lemma FetchedBit(s: seq<byte>, off: nat, n: nat, alignRight: bool, p: nat)
    requires off + n <= 8 * |s|
    requires p < n
    ensures Bit(LeftAligned(Fetched(s, off, n, alignRight), n, alignRight), p) == Bit(s, off + p)
  {
    hide BitAt, ShiftLeft, FetchByte;
    var k, i := p / 8, p % 8;
    FetchedByteBit(s, off + 8 * k, n - 8 * k, alignRight, i);
    if n < 8 * k + 8 {
      LastByte(n, k);
    }
  }

  lemma LastByte(n: nat, k: nat)
    requires 8 * k < n < 8 * k + 8
    ensures k == n / 8 && n % 8 == n - 8 * k
  {
  }

  lemma FetchedByteBit(s: seq<byte>, off: nat, n: nat, alignRight: bool, i: nat)
    requires 1 <= n && off + n <= 8 * |s| && i < 8 && i < n
    ensures var v := FetchByte(s, off, n, alignRight);
            BitAt(if n < 8 && alignRight then ShiftLeft(v, 8 - n) else v, i) == Bit(s, off + i)
  {
    hide BitAt, ShiftLeft, ShiftRight, GetByte, Bit;
    GetByteBit(s, off, n, i);
    if n < 8 {
      ShiftBack(GetByte(s, off, n), 8 - n, i);
    }
  }

  // Read back through the same alignment, a fetched block holds exactly the bits of the slice.
  lemma FetchedBits(s: seq<byte>, off: nat, n: nat, alignRight: bool)
    requires off + n <= 8 * |s|
    ensures TakeBits(LeftAligned(Fetched(s, off, n, alignRight), n, alignRight), n) == TakeBits(s, off + n)[off..]
  {
    forall p: nat | p < n
      ensures Bit(LeftAligned(Fetched(s, off, n, alignRight), n, alignRight), p) == Bit(s, off + p)
    {
      FetchedBit(s, off, n, alignRight, p);
    }
  }

  // the byte that starts with the given bits and goes on with zeros
  function ByteFrom(bits: seq<bool>): byte
    requires |bits| <= 8
    decreases |bits|
  {
    if bits == [] then 0 else (if bits[0] then 0x80 else 0) | ShiftRight(ByteFrom(bits[1..]), 1)
  }

  // The buffer of a bit string: its bits in order, then zeros up to the byte boundary
  function Pack(bits: seq<bool>): (s: seq<byte>)
    ensures |s| == BytesFor(|bits|)
  {
    seq(BytesFor(|bits|), k requires 0 <= k < BytesFor(|bits|) => ByteFrom(Chunk(bits, k)))
  }

  function Chunk(bits: seq<bool>, k: nat): (c: seq<bool>)
    requires 8 * k < |bits|
    ensures |c| <= 8
  {
    bits[8 * k..if 8 * k + 8 <= |bits| then 8 * k + 8 else |bits|]
  }

  lemma {:induction false} ByteFromBit(bits: seq<bool>, i: nat)
    requires |bits| <= 8 && i < 8
    ensures BitAt(ByteFrom(bits), i) == (i < |bits| && bits[i])
    decreases |bits|
  {
    BitMasks(0);
    BitMasks(0x80);
    if bits != [] {
      var top: byte := if bits[0] then 0x80 else 0;
      OrBit(top, ShiftRight(ByteFrom(bits[1..]), 1), i);
      ShiftRightBit(ByteFrom(bits[1..]), 1, i);
      if i > 0 {
        ByteFromBit(bits[1..], i - 1);
      }
    }
  }

  lemma PackBits(bits: seq<bool>)
    ensures TakeBits(Pack(bits), |bits|) == bits
    ensures ZeroFrom(Pack(bits), |bits|)
  {
    hide ByteFrom;
    forall p: nat | p < 8 * BytesFor(|bits|)
      ensures Bit(Pack(bits), p) == (p < |bits| && bits[p])
    {
      ByteFromBit(Chunk(bits, p / 8), p % 8);
    }
  }

  lemma PackUnique(s: seq<byte>, bits: seq<bool>)
    requires |bits| <= 8 * |s| && TakeBits(s, |bits|) == bits && ZeroFrom(s, |bits|)
    ensures s[..BytesFor(|bits|)] == Pack(bits)
  {
    hide TakeBits, ZeroFrom, Pack;
    PackBits(bits);
    BitsDetermineBytes(s, Pack(bits), |bits|);
    assert Pack(bits)[..BytesFor(|bits|)] == Pack(bits);
  }

  // Whole bytes and their bits determine each other.
  lemma PackAll(s: seq<byte>)
    ensures Pack(AllBits(s)) == s
  {
    PackUnique(s, AllBits(s));
    assert s[..|s|] == s;
  }

  // A whole number of bytes is fetched as the buffer of those bits.
  lemma FetchedWhole(s: seq<byte>, off: nat, n: nat, alignRight: bool)
    requires off + n <= 8 * |s| && n % 8 == 0
    ensures Fetched(s, off, n, alignRight) == Pack(TakeBits(s, off + n)[off..])
  {
    hide TakeBits, Pack, Fetched;
    var r := Fetched(s, off, n, alignRight);
    FetchedBits(s, off, n, alignRight);
    assert LeftAligned(r, n, alignRight) == r;
    PackAll(r);
  }

  lemma FetchedSlice(s: seq<byte>, used: nat, off: nat, n: nat, alignRight: bool)
    requires off + n <= used <= 8 * |s|
    ensures TakeBits(LeftAligned(Fetched(s, off, n, alignRight), n, alignRight), n) == TakeBits(s, used)[off..off + n]
    ensures n % 8 == 0 ==> Fetched(s, off, n, alignRight) == Pack(TakeBits(s, used)[off..off + n])
  {
    hide Pack, Fetched, LeftAligned;
    FetchedBits(s, off, n, alignRight);
    assert TakeBits(s, off + n)[off..] == TakeBits(s, used)[off..off + n];
    if n % 8 == 0 {
      FetchedWhole(s, off, n, alignRight);
    }
  }

  // four bits read with right alignment land in the low nibble
  lemma FetchedNibble(s: seq<byte>, used: nat, off: nat)
    requires off + 4 <= used <= 8 * |s|
    ensures Fetched(s, off, 4, true) == [ShiftRight(ByteFrom(TakeBits(s, used)[off..off + 4]), 4)]
  {
    hide BitAt, ShiftRight, ByteFrom;
    var bits := TakeBits(s, used)[off..off + 4];
    var v, w := GetByte(s, off, 4), ByteFrom(bits);
    forall i: nat | i < 8
      ensures BitAt(ShiftRight(v, 4), i) == BitAt(ShiftRight(w, 4), i)
    {
      ShiftRightBit(v, 4, i);
      ShiftRightBit(w, 4, i);
      if i >= 4 {
        GetByteBit(s, off, 4, i - 4);
        ByteFromBit(bits, i - 4);
      }
    }
    SameBitsSameByte(ShiftRight(v, 4), ShiftRight(w, 4));
  }

  function Zeros(n: nat): (bits: seq<bool>)
    ensures |bits| == n
  {
    seq(n, _ => false)
  }

  // how many bits are missing to the next byte boundary
  function Padding(n: nat): nat {
    8 * BytesFor(n) - n
  }

  // with a zero tail, going up to the byte boundary appends zeros
  lemma TailBits(s: seq<byte>, n: nat)
    requires BytesFor(n) <= |s| && ZeroFrom(s, n)
    ensures TakeBits(s, 8 * BytesFor(n)) == TakeBits(s, n) + Zeros(Padding(n))
    ensures ZeroFrom(s, 8 * BytesFor(n))
  {
    hide BitAt;
  }

  // bytes copied from a byte boundary are the buffer of the bits there
  lemma AlignedSlice(s: seq<byte>, used: nat, k: nat, n: nat)
    requires 8 * k + 8 * n <= used <= 8 * |s|
    ensures s[k..k + n] == Pack(TakeBits(s, used)[8 * k..8 * k + 8 * n])
  {
    hide BitAt, Pack;
    var t := s[k..k + n];
    forall p: nat | p < 8 * n
      ensures Bit(t, p) == Bit(s, 8 * k + p)
    {
      assert (8 * k + p) / 8 == k + p / 8 && (8 * k + p) % 8 == p % 8;
    }
    assert AllBits(t) == TakeBits(s, used)[8 * k..8 * k + 8 * n];
    PackAll(t);
  }
}
