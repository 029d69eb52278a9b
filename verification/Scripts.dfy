/** Mixed scripts of writes, and the matching scripts of reads. */
module Scripts {
  import opened Sequences
  import opened Bytes
  import opened Binary
  import opened CompressedInts
  import opened Growth
  import opened BitStreams

  // One write. A native value is its bytes in stream order; a delta write with known == false is
  // the form without a last value, which always sends the current one.
  datatype Item =
    | BitsItem(input: seq<byte>, count: nat, rightAligned: bool)
    | FlagItem(flag: bool)
    | ValueItem(bytes: seq<byte>)
    | CompressedItem(bytes: seq<byte>, unsignedData: bool)
    | DeltaItem(current: seq<byte>, last: seq<byte>, known: bool)
    | CompressedDeltaItem(current: seq<byte>, last: seq<byte>, known: bool)
    | AlignedItem(bytes: seq<byte>)
    | BytesItem(bytes: seq<byte>)

  // What the reader has to know: kinds and sizes, and for a delta the value its variable holds
  datatype Shape =
    | BitsShape(count: nat, rightAligned: bool)
    | FlagShape
    | ValueShape(size: nat)
    | CompressedShape(size: nat, unsignedData: bool)
    | DeltaShape(last: seq<byte>)
    | CompressedDeltaShape(last: seq<byte>)
    | AlignedShape(size: nat)
    | BytesShape(size: nat)

  datatype Got = GotFlag(flag: bool) | GotBytes(bytes: seq<byte>)

  function ShapeOf(it: Item): Shape {
    match it
    case BitsItem(_, count, rightAligned) => BitsShape(count, rightAligned)
    case FlagItem(_) => FlagShape
    case ValueItem(bytes) => ValueShape(|bytes|)
    case CompressedItem(bytes, unsignedData) => CompressedShape(|bytes|, unsignedData)
    case DeltaItem(_, last, _) => DeltaShape(last)
    case CompressedDeltaItem(_, last, _) => CompressedDeltaShape(last)
    case AlignedItem(bytes) => AlignedShape(|bytes|)
    case BytesItem(bytes) => BytesShape(|bytes|)
  }

  // What a caller owes the stream: no empty item, and no stray bits after a left-aligned partial byte
  ghost predicate Writable(it: Item, pos: nat) {
    match it
    case BitsItem(input, count, rightAligned) => 0 < count <= 8 * |input| && TailOk(pos, input, count, rightAligned)
    case FlagItem(_) => true
    case ValueItem(bytes) => |bytes| > 0
    case CompressedItem(bytes, _) => |bytes| > 0
    case DeltaItem(current, last, _) => |current| == |last| > 0
    case CompressedDeltaItem(current, last, _) => |current| == |last| > 0
    case AlignedItem(bytes) => |bytes| > 0
    case BytesItem(bytes) => |bytes| > 0
  }

  // the bits one write appends at position pos
  ghost function Encoded(it: Item, pos: nat): seq<bool>
    requires Writable(it, pos)
  {
    match it
    case BitsItem(input, count, rightAligned) => Payload(input, count, rightAligned)
    case FlagItem(flag) => [flag]
    case ValueItem(bytes) => AllBits(bytes)
    case CompressedItem(bytes, unsignedData) => Compress(bytes, unsignedData)
    case DeltaItem(current, last, known) =>
      if known && current == last then [false] else [true] + AllBits(current)
    case CompressedDeltaItem(current, last, known) =>
      if known && current == last then [false] else [true] + Compress(current, true)
    case AlignedItem(bytes) => Zeros(Padding(pos)) + AllBits(bytes)
    case BytesItem(bytes) => AllBits(bytes)
  }

  // Raw bits read back: the whole bytes are those written, and a partial last byte holds, aligned right, the
  // last digits of the number written and nothing above them, or its first bits and anything below them.
  ghost predicate SameRaw(input: seq<byte>, bytes: seq<byte>, count: nat, rightAligned: bool)
    requires count <= 8 * |input|
  {
    var whole, r := count / 8, count % 8;
    && |bytes| == BytesFor(count) && Payload(bytes, count, rightAligned) == Payload(input, count, rightAligned)
    && bytes[..whole] == input[..whole]
    && (r > 0 && rightAligned ==> bytes[whole] as nat == input[whole] as nat % Power2(r))
    && (r > 0 && !rightAligned ==> TakeBits([bytes[whole]], r) == TakeBits([input[whole]], r))
  }

  // A right-aligned number that fits its bits comes back as it is.
  lemma FittingNumber(input: seq<byte>, bytes: seq<byte>, count: nat)
    requires count <= 8 * |input| && SameRaw(input, bytes, count, true)
    requires count % 8 > 0 ==> input[count / 8] as nat < Power2(count % 8)
    ensures bytes == input[..BytesFor(count)]
  {
    hide TakeBits, Payload, Power2;
    var whole := count / 8;
    if count % 8 > 0 {
      SmallRemainder(input[whole] as nat, Power2(count % 8));
      SameNumber(bytes[whole], input[whole]);
      assert bytes == bytes[..whole] + [bytes[whole]];
      assert input[..BytesFor(count)] == input[..whole] + [input[whole]];
    }
  }

  lemma SmallRemainder(v: nat, p: nat)
    requires v < p
    ensures v % p == v
  {
  }

  // The value read is the value written. For raw bits that means the bits asked for.
  ghost predicate Matches(it: Item, got: Got) {
    match it
    case BitsItem(input, count, rightAligned) =>
      count <= 8 * |input| && got.GotBytes? && SameRaw(input, got.bytes, count, rightAligned)
    case FlagItem(flag) => got == GotFlag(flag)
    case ValueItem(bytes) => got == GotBytes(bytes)
    case CompressedItem(bytes, _) => got == GotBytes(bytes)
    case DeltaItem(current, _, _) => got == GotBytes(current)
    case CompressedDeltaItem(current, _, _) => got == GotBytes(current)
    case AlignedItem(bytes) => got == GotBytes(bytes)
    case BytesItem(bytes) => got == GotBytes(bytes)
  }

  // what the calls of a delta write ask for, in bits
  function DeltaNeeds(current: seq<byte>, last: seq<byte>, known: bool, pos: nat): seq<nat> {
    if known && current == last then [pos + 1] else [pos + 1, pos + 1 + 8 * |current|]
  }

  function CompressedDeltaNeeds(current: seq<byte>, last: seq<byte>, known: bool, pos: nat): seq<nat>
    requires |current| > 0
  {
    if known && current == last then [pos + 1] else [pos + 1] + CompressNeeds(current, true, pos + 1)
  }

  lemma DeltaGrowth(current: seq<byte>, last: seq<byte>, known: bool, pos: nat, r: Room)
    requires |current| > 0
    ensures GrowAll(r, DeltaNeeds(current, last, known, pos)) ==
            var flagged := Grow(r, pos + 1);
            if known && current == last then flagged else Grow(flagged, pos + 1 + 8 * |current|)
    ensures GrowAll(r, CompressedDeltaNeeds(current, last, known, pos)) ==
            var flagged := Grow(r, pos + 1);
            if known && current == last then flagged else GrowAll(flagged, CompressNeeds(current, true, pos + 1))
  {
    hide Grow, CompressNeeds;
    OneNeed(r, pos + 1);
    TwoNeeds(r, pos + 1, pos + 1 + 8 * |current|);
    GrowAllAppend(r, [pos + 1], CompressNeeds(current, true, pos + 1));
  }

  // what the calls of one write ask for
  function ItemNeeds(it: Item, pos: nat): seq<nat>
    requires it.CompressedItem? ==> |it.bytes| > 0
    requires it.CompressedDeltaItem? ==> |it.current| > 0
  {
    match it
    case BitsItem(_, count, _) => [pos + count]
    case FlagItem(_) => [pos + 1]
    case ValueItem(bytes) => [pos + 8 * |bytes|]
    case CompressedItem(bytes, unsignedData) => CompressNeeds(bytes, unsignedData, pos)
    case DeltaItem(current, last, known) => DeltaNeeds(current, last, known, pos)
    case CompressedDeltaItem(current, last, known) => CompressedDeltaNeeds(current, last, known, pos)
    case AlignedItem(bytes) => [8 * BytesFor(pos) + 8 * |bytes|]
    case BytesItem(bytes) => [pos + 8 * |bytes|]
  }

  method WriteDelta(bs: BitStream, current: seq<byte>, last: seq<byte>, known: bool)
    requires bs.Valid() && |current| == |last| > 0
    modifies bs.Footprint()
    ensures bs.Valid() && fresh(bs.Footprint() - old(bs.Footprint())) && bs.readOffset == old(bs.readOffset)
    ensures bs.Bits() == old(bs.Bits()) + (if known && current == last then [false] else [true] + AllBits(current))
    ensures bs.Space() == GrowAll(old(bs.Space()), DeltaNeeds(current, last, known, old(bs.numberOfBitsUsed)))
  {
    hide TakeBits, ZeroFrom, AllBits, Grow, GrowAll, Amortised;
    DeltaGrowth(current, last, known, bs.numberOfBitsUsed, bs.Space());
    if known && current == last {
      bs.WriteBool(false);
    } else {
      bs.WriteBool(true);
      bs.WriteValue(current);
      AppendAssoc(old(bs.Bits()), [true], AllBits(current));
    }
  }

  method WriteCompressedDelta(bs: BitStream, current: seq<byte>, last: seq<byte>, known: bool)
    requires bs.Valid() && |current| == |last| > 0
    modifies bs.Footprint()
    ensures bs.Valid() && fresh(bs.Footprint() - old(bs.Footprint())) && bs.readOffset == old(bs.readOffset)
    ensures bs.Bits() == old(bs.Bits()) +
            (if known && current == last then [false] else [true] + Compress(current, true))
    ensures bs.Space() == GrowAll(old(bs.Space()), CompressedDeltaNeeds(current, last, known, old(bs.numberOfBitsUsed)))
  {
    hide TakeBits, ZeroFrom, Compress, Grow, GrowAll, CompressNeeds, Amortised;
    DeltaGrowth(current, last, known, bs.numberOfBitsUsed, bs.Space());
    if known && current == last {
      bs.WriteBool(false);
    } else {
      bs.WriteBool(true);
      bs.WriteCompressed(current, true);
      AppendAssoc(old(bs.Bits()), [true], Compress(current, true));
    }
  }

  // Keeps the variable when the flag is clear. With nothing left to read the original tests a flag that
  // was never set, which may hold anything; either way the read fails and the variable stays.
  method ReadDelta(bs: BitStream, variable: array<byte>, unset: bool) returns (success: bool)
    requires bs.WellFormed() && variable != bs.data && variable.Length > 0
    modifies bs`readOffset, variable
    ensures var unread := old(bs.Unread());
            if unread == [] then
              !success && bs.readOffset == old(bs.readOffset) && variable[..] == old(variable[..])
            else if !unread[0] then
              success && bs.readOffset == old(bs.readOffset) + 1 && variable[..] == old(variable[..])
            else
              && (success <==> 1 + 8 * variable.Length <= |unread|)
              && (success ==>
                   && bs.readOffset == old(bs.readOffset) + 1 + 8 * variable.Length
                   && variable[..] == Pack(unread[1..][..8 * variable.Length]))
              && (!success ==> bs.readOffset == old(bs.readOffset) + 1 && variable[..] == old(variable[..]))
  {
    hide TakeBits, Pack;
    var read;
    success, read := bs.ReadBool();
    var dataWritten := if success then read else unset;
    if dataWritten {
      success := bs.ReadValue(variable, 0, variable.Length);
      assert variable[..] == variable[0..0 + variable.Length];
    }
  }

  method ReadCompressedDelta(bs: BitStream, variable: array<byte>, unset: bool) returns (success: bool)
    requires bs.WellFormed() && variable != bs.data && variable.Length > 0
    modifies bs`readOffset, variable
    ensures var unread := old(bs.Unread());
            if unread == [] then
              !success && bs.readOffset == old(bs.readOffset) && variable[..] == old(variable[..])
            else if !unread[0] then
              success && bs.readOffset == old(bs.readOffset) + 1 && variable[..] == old(variable[..])
            else
              var d := Decompress(unread[1..], variable.Length, true);
              && (success <==> d.Some?)
              && bs.readOffset == old(bs.readOffset) + 1 + Taken(unread[1..], variable.Length)
              && (success ==>
                  bs.readOffset == old(bs.readOffset) + 1 + d.value.consumed &&
                  variable[..] == d.value.value)
  {
    hide TakeBits, Decompress, Taken;
    NothingTaken(variable.Length);
    var read;
    success, read := bs.ReadBool();
    var dataWritten := if success then read else unset;
    if dataWritten {
      success := bs.ReadCompressed(variable, 0, variable.Length, true);
      assert variable[..] == variable[0..0 + variable.Length];
    }
  }

  lemma NothingTaken(k: nat)
    requires k >= 1
    ensures Taken([], k) == 0 && Decompress([], k, true).None?
  {
  }

  lemma SingleNeed(it: Item, pos: nat, r: Room)
    requires it.CompressedItem? ==> |it.bytes| > 0
    requires it.CompressedDeltaItem? ==> |it.current| > 0
    ensures !it.CompressedItem? && !it.DeltaItem? && !it.CompressedDeltaItem? ==>
              |ItemNeeds(it, pos)| == 1 && GrowAll(r, ItemNeeds(it, pos)) == Grow(r, ItemNeeds(it, pos)[0])
  {
    hide Grow, CompressNeeds;
    if !it.CompressedItem? && !it.DeltaItem? && !it.CompressedDeltaItem? {
      OneNeed(r, ItemNeeds(it, pos)[0]);
    }
  }

  method WriteItem(bs: BitStream, it: Item)
    requires bs.Valid() && Writable(it, bs.numberOfBitsUsed)
    modifies bs.Footprint()
    ensures bs.Valid() && fresh(bs.Footprint() - old(bs.Footprint())) && bs.readOffset == old(bs.readOffset)
    ensures bs.Bits() == old(bs.Bits()) + Encoded(it, old(bs.numberOfBitsUsed))
    ensures bs.Space() == GrowAll(old(bs.Space()), ItemNeeds(it, old(bs.numberOfBitsUsed)))
  {
    hide TakeBits, ZeroFrom, AllBits, Compress, TailOk, Payload, Grow, GrowAll, CompressNeeds, DeltaNeeds,
      CompressedDeltaNeeds, Amortised;
    SingleNeed(it, bs.numberOfBitsUsed, bs.Space());
    match it
    case BitsItem(input, count, rightAligned) => bs.WriteBits(input, count, rightAligned);
    case FlagItem(flag) => bs.WriteBool(flag);
    case ValueItem(bytes) => bs.WriteValue(bytes);
    case CompressedItem(bytes, unsignedData) => bs.WriteCompressed(bytes, unsignedData);
    case DeltaItem(current, last, known) => WriteDelta(bs, current, last, known);
    case CompressedDeltaItem(current, last, known) => WriteCompressedDelta(bs, current, last, known);
    case AlignedItem(bytes) => bs.WriteAlignedBytes(bytes);
    case BytesItem(bytes) => bs.WriteBytes(bytes);
  }

  lemma Front<T>(x: seq<T>, rest: seq<T>)
    ensures (x + rest)[..|x|] == x && (x + rest)[|x|..] == rest
  {
  }

  lemma UnreadMoved(bits: seq<bool>, start: nat, n: nat)
    requires start + n <= |bits|
    ensures bits[start..][n..] == bits[start + n..]
  {
  }

  method ReadRaw(bs: BitStream, count: nat, rightAligned: bool, ghost input: seq<byte>, ghost rest: seq<bool>)
    returns (ok: bool, bytes: seq<byte>)
    requires bs.Valid() && bs.readOffset <= bs.numberOfBitsUsed && 0 < count <= 8 * |input|
    requires bs.Unread() == Payload(input, count, rightAligned) + rest
    modifies bs`readOffset
    ensures bs.Valid() && ok && bs.readOffset == old(bs.readOffset) + count <= bs.numberOfBitsUsed &&
            bs.Unread() == rest
    ensures SameRaw(input, bytes, count, rightAligned)
  {
    hide TakeBits, ZeroFrom, Pack, Fetched, LeftAligned, Power2, SameRaw, Payload, Amortised;
    RawSlice(bs.Bits(), bs.readOffset, Payload(input, count, rightAligned), rest);
    SameFetched(bs.data[..], bs.numberOfBitsUsed, bs.readOffset, input, count, rightAligned);
    ghost var fetched := Fetched(bs.data[..], bs.readOffset, count, rightAligned);
    var output := new byte[BytesFor(count)];
    ok := bs.ReadBits(output, 0, count, rightAligned);
    Splice(output[..], [], fetched, []);
    bytes := output[..];
    assert bytes == fetched;
  }

  lemma RawSlice(bits: seq<bool>, start: nat, payload: seq<bool>, rest: seq<bool>)
    requires start <= |bits| && bits[start..] == payload + rest
    ensures start + |payload| <= |bits|
    ensures bits[start..start + |payload|] == payload && bits[start + |payload|..] == rest
  {
    Front(payload, rest);
    UnreadMoved(bits, start, |payload|);
    assert bits[start..start + |payload|] == bits[start..][..|payload|];
  }

  lemma SameFetched(s: seq<byte>, used: nat, off: nat, input: seq<byte>, count: nat, rightAligned: bool)
    requires off + count <= used <= 8 * |s| && 0 < count <= 8 * |input|
    requires TakeBits(s, used)[off..off + count] == Payload(input, count, rightAligned)
    ensures SameRaw(input, Fetched(s, off, count, rightAligned), count, rightAligned)
  {
    hide TakeBits, Fetched, LeftAligned, Power2;
    FetchedSlice(s, used, off, count, rightAligned);
    RawValue(s, used, off, input, count, rightAligned);
  }

  method ReadSized(bs: BitStream, size: nat, ghost value: seq<byte>, ghost rest: seq<bool>)
    returns (ok: bool, bytes: seq<byte>)
    requires bs.Valid() && bs.readOffset <= bs.numberOfBitsUsed && 0 < size == |value|
    requires bs.Unread() == AllBits(value) + rest
    modifies bs`readOffset
    ensures bs.Valid() && ok && bytes == value
    ensures bs.readOffset == old(bs.readOffset) + 8 * size <= bs.numberOfBitsUsed && bs.Unread() == rest
  {
    hide TakeBits, ZeroFrom, Pack, AllBits;
    AllBitsLength(value);
    PackAll(value);
    Front(AllBits(value), rest);
    UnreadMoved(bs.Bits(), bs.readOffset, 8 * size);
    var output := new byte[size];
    ok := bs.ReadValue(output, 0, size);
    assert output[0..0 + size] == output[..];
    bytes := output[..];
  }

  method ReadArray(bs: BitStream, size: nat, ghost value: seq<byte>, ghost rest: seq<bool>)
    returns (ok: bool, bytes: seq<byte>)
    requires bs.Valid() && bs.readOffset <= bs.numberOfBitsUsed && 0 < size == |value|
    requires bs.Unread() == AllBits(value) + rest
    modifies bs`readOffset
    ensures bs.Valid() && ok && bytes == value
    ensures bs.readOffset == old(bs.readOffset) + 8 * size <= bs.numberOfBitsUsed && bs.Unread() == rest
  {
    hide TakeBits, ZeroFrom, Pack, AllBits;
    AllBitsLength(value);
    PackAll(value);
    Front(AllBits(value), rest);
    UnreadMoved(bs.Bits(), bs.readOffset, 8 * size);
    var output := new byte[size];
    ok := bs.ReadBytes(output, size);
    assert output[..size] == output[..];
    bytes := output[..];
  }

  lemma AlignedBody(bits: seq<bool>, start: nat, pad: seq<bool>, body: seq<bool>, rest: seq<bool>)
    requires start <= |bits| && bits[start..] == pad + body + rest
    ensures start + |pad| + |body| <= |bits|
    ensures bits[start + |pad|..start + |pad| + |body|] == body && bits[start + |pad| + |body|..] == rest
  {
    var at := start + |pad|;
    AppendAssoc(pad, body, rest);
    Front(pad, body + rest);
    Front(body, rest);
    UnreadMoved(bits, start, |pad|);
    UnreadMoved(bits, at, |body|);
    assert bits[at..at + |body|] == bits[at..][..|body|];
  }

  lemma PaddingToByte(offset: nat)
    ensures offset + Padding(offset) == 8 * BytesFor(offset)
  {
  }

  method ReadAligned(bs: BitStream, size: nat, ghost value: seq<byte>, ghost rest: seq<bool>)
    returns (ok: bool, bytes: seq<byte>)
    requires bs.Valid() && bs.readOffset <= bs.numberOfBitsUsed && 0 < size == |value|
    requires bs.Unread() == Zeros(Padding(bs.readOffset)) + AllBits(value) + rest
    modifies bs`readOffset
    ensures bs.Valid() && ok && bytes == value
    ensures bs.readOffset == old(bs.readOffset) + Padding(old(bs.readOffset)) + 8 * size <= bs.numberOfBitsUsed &&
            bs.Unread() == rest
  {
    hide TakeBits, ZeroFrom, Pack, AllBits, Zeros, Padding;
    AllBitsLength(value);
    PackAll(value);
    AlignedBody(bs.Bits(), bs.readOffset, Zeros(Padding(bs.readOffset)), AllBits(value), rest);
    PaddingToByte(bs.readOffset);
    var output := new byte[size];
    ok := bs.ReadAlignedBytes(output, size);
    assert output[..size] == output[..];
    bytes := output[..];
  }

  method ReadCompressedSized(bs: BitStream, size: nat, unsignedData: bool, ghost value: seq<byte>,
                             ghost rest: seq<bool>)
    returns (ok: bool, bytes: seq<byte>)
    requires bs.Valid() && bs.readOffset <= bs.numberOfBitsUsed && 0 < size == |value|
    requires bs.Unread() == Compress(value, unsignedData) + rest
    modifies bs`readOffset
    ensures bs.Valid() && ok && bytes == value
    ensures bs.readOffset == old(bs.readOffset) + |Compress(value, unsignedData)| <= bs.numberOfBitsUsed &&
            bs.Unread() == rest
  {
    hide TakeBits, ZeroFrom, Compress, Decompress;
    RoundTrip(value, unsignedData, rest);
    Front(Compress(value, unsignedData), rest);
    UnreadMoved(bs.Bits(), bs.readOffset, |Compress(value, unsignedData)|);
    var output := new byte[size];
    ok := bs.ReadCompressed(output, 0, size, unsignedData);
    assert output[0..0 + size] == output[..];
    bytes := output[..];
  }

  // a fresh variable that holds the given bytes
  method Holding(bytes: seq<byte>) returns (variable: array<byte>)
    ensures fresh(variable) && variable[..] == bytes
  {
    variable := new byte[|bytes|];
    CopyBytes(variable, 0, bytes);
    assert variable[..] == bytes;
  }

  lemma DeltaBody(bits: seq<bool>, start: nat, written: bool, body: seq<bool>, rest: seq<bool>)
    requires start <= |bits| && bits[start..] == (if !written then [false] else [true] + body) + rest &&
             (!written ==> body == [])
    ensures start + 1 + |body| <= |bits| && bits[start] == written && bits[start..] != [] && bits[start..][0] == written
    ensures bits[start + 1 + |body|..] == rest
    ensures written ==> bits[start..][1..][..|body|] == body && bits[start..][1..] == body + rest
  {
    DeltaBits(written, body, rest);
    Front(body, rest);
    UnreadMoved(bits, start, 1 + |body|);
  }

  method ReadDeltaPlain(bs: BitStream, last: seq<byte>, ghost current: seq<byte>, ghost written: bool,
                        ghost rest: seq<bool>)
    returns (ok: bool, bytes: seq<byte>)
    requires bs.Valid() && bs.readOffset <= bs.numberOfBitsUsed && 0 < |last| == |current| &&
             (!written ==> current == last)
    requires bs.Unread() == (if !written then [false] else [true] + AllBits(current)) + rest
    modifies bs`readOffset
    ensures bs.Valid() && ok && bytes == current
    ensures bs.readOffset <= bs.numberOfBitsUsed && bs.Unread() == rest
    ensures bs.readOffset == old(bs.readOffset) + (if !written then 1 else 1 + |AllBits(current)|)
  {
    hide TakeBits, ZeroFrom, Compress, Decompress, AllBits, Pack, Amortised, BytesFor;
    ghost var body := if !written then [] else AllBits(current);
    AllBitsLength(current);
    PackAll(current);
    DeltaBody(bs.Bits(), bs.readOffset, written, body, rest);
    var variable := Holding(last);
    ok := ReadDelta(bs, variable, false);
    bytes := variable[..];
  }

  method ReadDeltaCompressed(bs: BitStream, last: seq<byte>, ghost current: seq<byte>, ghost written: bool,
                             ghost rest: seq<bool>)
    returns (ok: bool, bytes: seq<byte>)
    requires bs.Valid() && bs.readOffset <= bs.numberOfBitsUsed && 0 < |last| == |current| &&
             (!written ==> current == last)
    requires bs.Unread() == (if !written then [false] else [true] + Compress(current, true)) + rest
    modifies bs`readOffset
    ensures bs.Valid() && ok && bytes == current
    ensures bs.readOffset <= bs.numberOfBitsUsed && bs.Unread() == rest
    ensures bs.readOffset == old(bs.readOffset) + (if !written then 1 else 1 + |Compress(current, true)|)
  {
    hide TakeBits, ZeroFrom, Compress, Decompress, Taken, Amortised;
    CompressedDelta(bs.Bits(), bs.readOffset, written, current, rest);
    var variable := Holding(last);
    ok := ReadCompressedDelta(bs, variable, false);
    bytes := variable[..];
  }

  lemma CompressedDelta(bits: seq<bool>, start: nat, written: bool, current: seq<byte>, rest: seq<bool>)
    requires start <= |bits| && current != []
    requires bits[start..] == (if !written then [false] else [true] + Compress(current, true)) + rest
    ensures start < |bits| && bits[start..] != [] && bits[start..][0] == written
    ensures var end := start + if !written then 1 else 1 + |Compress(current, true)|;
            end <= |bits| && bits[end..] == rest
    ensures written ==>
              Decompress(bits[start..][1..], |current|, true) == Some(Decoded(current, |Compress(current, true)|))
  {
    hide Compress, Decompress;
    RoundTrip(current, true, rest);
    DeltaBody(bits, start, written, if !written then [] else Compress(current, true), rest);
  }

  lemma DeltaBits(written: bool, body: seq<bool>, rest: seq<bool>)
    ensures var bits := (if !written then [false] else [true] + body) + rest;
            bits[0] == written && (written ==> bits[1..] == body + rest && bits[1 + |body|..] == rest) &&
              (!written ==> bits[1..] == rest)
  {
  }

  // The matching read of one item: same value, and the cursor just past what the write appended
  method ReadItem(bs: BitStream, shape: Shape, ghost it: Item, ghost rest: seq<bool>) returns (ok: bool, got: Got)
    requires bs.Valid() && bs.readOffset <= bs.numberOfBitsUsed
    requires shape == ShapeOf(it) && Writable(it, bs.readOffset)
    requires bs.Unread() == Encoded(it, bs.readOffset) + rest
    modifies bs`readOffset
    ensures bs.Valid() && ok && Matches(it, got)
    ensures bs.readOffset == old(bs.readOffset) + |Encoded(it, old(bs.readOffset))| <= bs.numberOfBitsUsed &&
            bs.Unread() == rest
  {
    hide TakeBits, ZeroFrom, Compress, AllBits, Zeros, TailOk, Payload;
    var bytes;
    match shape
    case BitsShape(count, rightAligned) =>
      ok, bytes := ReadRaw(bs, count, rightAligned, it.input, rest);
      got := GotBytes(bytes);
    case FlagShape =>
      UnreadMoved(bs.Bits(), bs.readOffset, 1);
      var flag;
      ok, flag := bs.ReadBool();
      got := GotFlag(flag);
    case ValueShape(size) =>
      AllBitsLength(it.bytes);
      ok, bytes := ReadSized(bs, size, it.bytes, rest);
      got := GotBytes(bytes);
    case CompressedShape(size, unsignedData) =>
      ok, bytes := ReadCompressedSized(bs, size, unsignedData, it.bytes, rest);
      got := GotBytes(bytes);
    case DeltaShape(last) =>
      ok, bytes := ReadDeltaPlain(bs, last, it.current, !it.known || it.current != last, rest);
      got := GotBytes(bytes);
    case CompressedDeltaShape(last) =>
      ok, bytes := ReadDeltaCompressed(bs, last, it.current, !it.known || it.current != last, rest);
      got := GotBytes(bytes);
    case AlignedShape(size) =>
      AllBitsLength(it.bytes);
      ok, bytes := ReadAligned(bs, size, it.bytes, rest);
      got := GotBytes(bytes);
    case BytesShape(size) =>
      AllBitsLength(it.bytes);
      ok, bytes := ReadArray(bs, size, it.bytes, rest);
      got := GotBytes(bytes);
  }

  // every item is writable where it comes to stand
  ghost predicate AllWritable(items: seq<Item>, pos: nat)
    decreases |items|
  {
    items != [] ==> Writable(items[0], pos) && AllWritable(items[1..], pos + |Encoded(items[0], pos)|)
  }

  ghost function EncodedAll(items: seq<Item>, pos: nat): seq<bool>
    requires AllWritable(items, pos)
    decreases |items|
  {
    if items == [] then [] else
      Encoded(items[0], pos) + EncodedAll(items[1..], pos + |Encoded(items[0], pos)|)
  }

  function ShapesOf(items: seq<Item>): (shapes: seq<Shape>)
    ensures |shapes| == |items|
  {
    seq(|items|, i requires 0 <= i < |items| => ShapeOf(items[i]))
  }

  lemma ShapesAre(items: seq<Item>)
    ensures forall i :: 0 <= i < |items| ==> ShapesOf(items)[i] == ShapeOf(items[i])
  {
  }

  method WriteScript(bs: BitStream, items: seq<Item>)
    requires bs.Valid() && AllWritable(items, bs.numberOfBitsUsed)
    modifies bs.Footprint()
    ensures bs.Valid() && fresh(bs.Footprint() - old(bs.Footprint())) && bs.readOffset == old(bs.readOffset)
    ensures bs.Bits() == old(bs.Bits()) + EncodedAll(items, old(bs.numberOfBitsUsed))
  {
    hide TakeBits, ZeroFrom, Encoded, Writable, Amortised, EncodedAll, AllWritable;
    ghost var before, start, done := bs.Bits(), bs.numberOfBitsUsed, [];
    WholeScript(items, start);
    for i := 0 to |items|
      invariant bs.Valid() && fresh(bs.Footprint() - old(bs.Footprint())) && bs.readOffset == old(bs.readOffset)
      invariant bs.Bits() == before + done && AllWritable(items[i..], bs.numberOfBitsUsed)
      invariant EncodedAll(items, start) == done + EncodedAll(items[i..], bs.numberOfBitsUsed)
    {
      NextItem(items, i, bs.numberOfBitsUsed, done);
      ghost var code := Encoded(items[i], bs.numberOfBitsUsed);
      WriteItem(bs, items[i]);
      AppendAssoc(before, done, code);
      done := done + code;
    }
    NoItems(items, bs.numberOfBitsUsed);
  }

  lemma NoItems(items: seq<Item>, pos: nat)
    ensures items[|items|..] == [] && AllWritable(items[|items|..], pos) && EncodedAll(items[|items|..], pos) == []
  {
  }

  lemma WholeScript(items: seq<Item>, pos: nat)
    requires AllWritable(items, pos)
    ensures items[0..] == items && EncodedAll(items, pos) == [] + EncodedAll(items[0..], pos)
  {
    assert items[0..] == items;
  }

  // one item more
  lemma NextItem(items: seq<Item>, i: nat, pos: nat, done: seq<bool>)
    requires i < |items| && AllWritable(items[i..], pos)
    ensures Writable(items[i], pos)
    ensures var code, next := Encoded(items[i], pos), pos + |Encoded(items[i], pos)|;
            && AllWritable(items[i + 1..], next)
            && EncodedAll(items[i..], pos) == code + EncodedAll(items[i + 1..], next)
            && done + EncodedAll(items[i..], pos) == (done + code) + EncodedAll(items[i + 1..], next)
  {
    hide Encoded, Writable;
    assert items[i..][0] == items[i] && items[i..][1..] == items[i + 1..];
  }

  method ReadScript(bs: BitStream, shapes: seq<Shape>, ghost items: seq<Item>) returns (ok: bool, gots: seq<Got>)
    requires bs.Valid() && bs.readOffset <= bs.numberOfBitsUsed && AllWritable(items, bs.readOffset)
    requires shapes == ShapesOf(items) && bs.Unread() == EncodedAll(items, bs.readOffset)
    modifies bs`readOffset
    ensures bs.Valid() && ok && bs.readOffset == bs.numberOfBitsUsed
    ensures |gots| == |items| && forall i :: 0 <= i < |items| ==> Matches(items[i], gots[i])
  {
    hide TakeBits, ZeroFrom, Encoded, Writable, Matches, ShapeOf, ShapesOf, EncodedAll, AllWritable,
      Amortised;
    ShapesAre(items);
    ok, gots := true, [];
    WholeScript(items, bs.readOffset);
    for i := 0 to |shapes|
      invariant bs.Valid() && ok && bs.readOffset <= bs.numberOfBitsUsed && |gots| == i
      invariant AllWritable(items[i..], bs.readOffset) && bs.Unread() == EncodedAll(items[i..], bs.readOffset)
      invariant forall j :: 0 <= j < i ==> Matches(items[j], gots[j])
    {
      NextItem(items, i, bs.readOffset, []);
      ghost var next := bs.readOffset + |Encoded(items[i], bs.readOffset)|;
      var got;
      ok, got := ReadItem(bs, shapes[i], items[i], EncodedAll(items[i + 1..], next));
      gots := gots + [got];
    }
    NoItems(items, bs.readOffset);
  }

  // Whatever the stream already holds and whatever mix of items is written, reading the script back
  // from where it starts returns every value and ends exactly at the write cursor.
  method ScriptRoundTrip(bs: BitStream, items: seq<Item>) returns (gots: seq<Got>)
    requires bs.Valid() && AllWritable(items, bs.numberOfBitsUsed)
    modifies bs.Footprint()
    ensures bs.Valid() && bs.readOffset == bs.numberOfBitsUsed
    ensures |gots| == |items| && forall i :: 0 <= i < |items| ==> Matches(items[i], gots[i])
  {
    hide TakeBits, ZeroFrom, Matches, ShapeOf, EncodedAll, AllWritable;
    var start := bs.numberOfBitsUsed;
    ghost var before, code := bs.Bits(), EncodedAll(items, start);
    WriteScript(bs, items);
    bs.readOffset := start;
    assert (before + code)[|before|..] == code;
    var ok;
    ok, gots := ReadScript(bs, ShapesOf(items), items);
  }
}
