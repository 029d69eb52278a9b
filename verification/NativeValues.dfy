/** Native integers as they sit in memory and as they travel: the stream always carries the least
    significant byte first, whatever the byte order of the host. */
module NativeValues {
  import opened Bytes
  import opened Binary
  import opened BitStreams
  import opened CompressedInts

  function Pow256(k: nat): (p: nat)
    ensures p > 0
  {
    if k == 0 then 1 else 256 * Pow256(k - 1)
  }

  function LittleEndian(v: nat, size: nat): (bytes: seq<byte>)
    ensures |bytes| == size
  {
    if size == 0 then [] else [(v % 256) as byte] + LittleEndian(v / 256, size - 1)
  }

  function FromLittleEndian(bytes: seq<byte>): nat {
    if bytes == [] then 0 else bytes[0] as nat + 256 * FromLittleEndian(bytes[1..])
  }

  lemma {:induction false} LittleEndianBack(v: nat, size: nat)
    requires v < Pow256(size)
    ensures FromLittleEndian(LittleEndian(v, size)) == v
    decreases size
  {
    if size > 0 {
      hide FromLittleEndian, Pow256;
      DigitsFit(v, size);
      LittleEndianBack(v / 256, size - 1);
      ByteBack(v % 256);
      Digit((v % 256) as byte, LittleEndian(v / 256, size - 1));
    }
  }

  // byte i weighs 256^i
  lemma {:induction false} LittleEndianAt(v: nat, size: nat, i: nat)
    requires i < size
    ensures LittleEndian(v, size)[i] as nat == v / Pow256(i) % 256
    decreases i
  {
    if i == 0 {
      assert v / 1 == v;
      ByteBack(v % 256);
    } else {
      LittleEndianAt(v / 256, size - 1, i - 1);
      DivideTwice(v, Pow256(i - 1));
    }
  }

  lemma DivideTwice(v: nat, p: nat)
    requires p > 0
    ensures v / 256 / p == v / (256 * p)
  {
    var q, r := v / 256, v % 256;
    var k, t := q / p, q % p;
    assert q == p * k + t;
    assert v == (256 * p) * k + (256 * t + r);
    assert 256 * t + r < 256 * p;
    QuotientIs(v, 256 * p, k, 256 * t + r);
  }

  lemma QuotientIs(v: nat, p: nat, q: nat, r: nat)
    requires r < p && v == p * q + r
    ensures v / p == q
  {
    var k, t := v / p, v % p;
    DivisionIs(v, p);
    if k < q {
      NextMultiple(p, k, q);
    } else if k > q {
      NextMultiple(p, q, k);
    }
  }

  lemma NextByte(b: byte)
    requires b as nat < 255
    ensures (b + 1) as nat == b as nat + 1
  {
    assert b != 255;
  }

  lemma SameByte(b: byte)
    ensures (b as nat) as byte == b
  {
  }

  lemma {:induction false} ByteFor(v: nat) returns (b: byte)
    requires v < 256
    ensures b as nat == v
  {
    if v == 0 {
      b := 0;
    } else {
      b := ByteFor(v - 1);
      NextByte(b);
      b := b + 1;
    }
  }

  // a byte is the number it was made from
  lemma ByteBack(v: nat)
    requires v < 256
    ensures v as byte as nat == v
  {
    var b := ByteFor(v);
    SameByte(b);
  }

  lemma DigitsFit(v: nat, size: nat)
    requires size > 0 && v < Pow256(size)
    ensures v / 256 < Pow256(size - 1)
  {
  }

  lemma Digit(low: byte, high: seq<byte>)
    ensures FromLittleEndian([low] + high) == low as nat + 256 * FromLittleEndian(high)
  {
    assert ([low] + high)[1..] == high;
  }

  lemma {:induction false} FromLittleEndianBack(bytes: seq<byte>)
    ensures FromLittleEndian(bytes) < Pow256(|bytes|)
    ensures LittleEndian(FromLittleEndian(bytes), |bytes|) == bytes
    decreases |bytes|
  {
    if bytes != [] {
      FromLittleEndianBack(bytes[1..]);
      LowByte(bytes[0], FromLittleEndian(bytes[1..]));
      assert bytes == [bytes[0]] + bytes[1..];
    }
  }

  lemma LowByte(b: byte, high: nat)
    ensures var v := b as nat + 256 * high;
            v % 256 == b as nat && v / 256 == high && (v % 256) as byte == b
  {
  }

  function Reversed(s: seq<byte>): (r: seq<byte>)
    ensures |r| == |s|
    ensures forall i :: 0 <= i < |s| ==> r[i] == s[|s| - 1 - i]
  {
    if s == [] then [] else Reversed(s[1..]) + [s[0]]
  }

  // the bytes of a value in the memory of a host
  function HostBytes(v: nat, size: nat, bigEndian: bool): (bytes: seq<byte>)
    ensures |bytes| == size
  {
    if bigEndian then Reversed(LittleEndian(v, size)) else LittleEndian(v, size)
  }

  method ReverseBytes(input: seq<byte>, output: array<byte>)
    requires output.Length == |input|
    modifies output
    ensures output[..] == Reversed(input)
  {
    for i := 0 to |input|
      invariant forall k :: 0 <= k < i ==> output[k] == input[|input| - 1 - k]
    {
      output[i] := input[|input| - i - 1];
    }
  }

  lemma ReversedTwice(s: seq<byte>)
    ensures Reversed(Reversed(s)) == s
  {
  }

  // the swap done before a write and after a read: none on a little-endian host, none for one byte
  method SwapToStream(memory: seq<byte>, bigEndian: bool) returns (stream: seq<byte>)
    ensures stream == if bigEndian then Reversed(memory) else memory
  {
    if |memory| == 1 || !bigEndian {
      return memory;
    }
    var output := new byte[|memory|];
    ReverseBytes(memory, output);
    stream := output[..];
  }

  // Write of an unsigned integer: the bits on the wire do not depend on the host.
  method WriteNative(bs: BitStream, v: nat, size: nat, bigEndian: bool)
    requires bs.Valid() && size >= 1
    modifies bs.Footprint()
    ensures bs.Valid() && fresh(bs.Footprint() - old(bs.Footprint()))
    ensures bs.Bits() == old(bs.Bits()) + AllBits(LittleEndian(v, size)) && bs.readOffset == old(bs.readOffset)
  {
    ReversedTwice(LittleEndian(v, size));
    var bytes := SwapToStream(HostBytes(v, size, bigEndian), bigEndian);
    bs.WriteValue(bytes);
  }

  method WriteCompressedNative(bs: BitStream, v: nat, size: nat, bigEndian: bool)
    requires bs.Valid() && size >= 1
    modifies bs.Footprint()
    ensures bs.Valid() && fresh(bs.Footprint() - old(bs.Footprint()))
    ensures bs.Bits() == old(bs.Bits()) + Compress(LittleEndian(v, size), true) && bs.readOffset == old(bs.readOffset)
  {
    ReversedTwice(LittleEndian(v, size));
    var bytes := SwapToStream(HostBytes(v, size, bigEndian), bigEndian);
    bs.WriteCompressed(bytes, true);
  }

  // the integer a host reads from bytes in its memory
  function FromHostBytes(bytes: seq<byte>, bigEndian: bool): nat {
    FromLittleEndian(if bigEndian then Reversed(bytes) else bytes)
  }

  method LoadNative(stream: seq<byte>, bigEndian: bool) returns (v: nat)
    ensures v == FromLittleEndian(stream)
  {
    ReversedTwice(stream);
    var memory := SwapToStream(stream, bigEndian);
    v := FromHostBytes(memory, bigEndian);
  }

  method ReadCompressedNative(bs: BitStream, size: nat, bigEndian: bool) returns (ok: bool, v: nat)
    requires bs.Valid() && size >= 1
    modifies bs`readOffset
    ensures bs.Valid()
    ensures bs.readOffset == old(bs.readOffset) + Taken(old(bs.Unread()), size)
    ensures ok <==> Decompress(old(bs.Unread()), size, true).Some?
    ensures ok ==>
      var d := Decompress(old(bs.Unread()), size, true).value;
      v == FromLittleEndian(d.value) && bs.readOffset == old(bs.readOffset) + d.consumed
  {
    hide TakeBits, ZeroFrom, Decompress, Taken, FromLittleEndian;
    var output := new byte[size];
    ok := bs.ReadCompressed(output, 0, size, true);
    if ok {
      assert output[0..0 + size] == output[..];
      v := LoadNative(output[..], bigEndian);
    } else {
      v := 0;
    }
  }

  method ReadNative(bs: BitStream, size: nat, bigEndian: bool) returns (ok: bool, v: nat)
    requires bs.Valid() && size >= 1
    modifies bs`readOffset
    ensures bs.Valid()
    ensures ok <==> 8 * size <= |old(bs.Unread())|
    ensures ok ==>
              v == FromLittleEndian(Pack(old(bs.Unread())[..8 * size])) &&
              bs.readOffset == old(bs.readOffset) + 8 * size
    ensures !ok ==> bs.readOffset == old(bs.readOffset)
  {
    hide TakeBits, ZeroFrom, Pack, FromLittleEndian;
    var output := new byte[size];
    ok := bs.ReadValue(output, 0, size);
    if ok {
      assert output[0..0 + size] == output[..];
      v := LoadNative(output[..], bigEndian);
    } else {
      v := 0;
    }
  }
}
