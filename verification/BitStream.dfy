/** The bit stream: a growing byte buffer with a bit-level write cursor and a bit-level read cursor. */
module BitStreams {
  import opened Sequences
  import opened Bytes
  import opened Binary
  import opened CompressedInts
  import opened Growth

  // no bit of the input past the n that count lands in the last byte written
  ghost predicate TailOk(used: nat, input: seq<byte>, n: int, rightAligned: bool)
    requires n <= 8 * |input|
  {
    n > 0 ==>
      var q := (n - 1) / 8;
      CleanTail(used + 8 * q, LeftAligned(input, n, rightAligned)[q], n - 8 * q)
  }

  lemma TailOkWhen(used: nat, input: seq<byte>, n: int, rightAligned: bool)
    requires n <= 8 * |input|
    requires rightAligned || n <= 0 || (used + n) % 8 == 0 || ZeroFrom(input, n)
    ensures TailOk(used, input, n, rightAligned)
  {
    if n > 0 {
      hide BitAt, LeftAligned, ZeroFrom;
      var q := (n - 1) / 8;
      var src := LeftAligned(input, n, rightAligned);
      forall i: nat | n - 8 * q <= i < 8 && used + 8 * q + i < 8 * BytesFor(used + n)
        ensures !BitAt(src[q], i)
      {
        LastByteOf(n, q, i);
        if rightAligned {
          ShiftedOut(input, n, i);
        } else {
          BoundaryPassed(used, n, q, i);
          PastTheEnd(input, n, i);
        }
      }
    }
  }

  lemma LastByteOf(n: nat, q: nat, i: nat)
    requires n > 0 && q == (n - 1) / 8 && n - 8 * q <= i < 8
    ensures n % 8 != 0 && q == n / 8 && n % 8 == n - 8 * q
  {
  }

  lemma BoundaryPassed(used: nat, n: nat, q: nat, i: nat)
    requires q == n / 8 && n % 8 <= i < 8 && used + 8 * q + i < 8 * BytesFor(used + n)
    ensures (used + n) % 8 != 0
  {
  }

  lemma ShiftedOut(input: seq<byte>, n: nat, i: nat)
    requires n % 8 != 0 && n <= 8 * |input| && n % 8 <= i < 8
    ensures !BitAt(LeftAligned(input, n, true)[n / 8], i)
  {
    hide BitAt, ShiftLeft;
    ShiftLeftBit(input[n / 8], 8 - n % 8, i);
  }

  lemma PastTheEnd(input: seq<byte>, n: nat, i: nat)
    requires n % 8 != 0 && n <= 8 * |input| && ZeroFrom(input, n) && n % 8 <= i < 8
    ensures !BitAt(LeftAligned(input, n, false)[n / 8], i)
  {
    hide BitAt;
    var p := 8 * (n / 8) + i;
    assert p / 8 == n / 8 && p % 8 == i;
    assert !Bit(input, p);
  }

  // the byte round k of the write loop stores, and how many of its bits count
  function RoundByte(input: seq<byte>, n: nat, rightAligned: bool, k: nat): byte
    requires n <= 8 * |input| && 8 * k < n
  {
    if n - 8 * k < 8 && rightAligned then ShiftLeft(input[k], 8 - (n - 8 * k)) else input[k]
  }

  lemma RoundBits(input: seq<byte>, n: nat, rightAligned: bool, k: nat)
    requires n <= 8 * |input| && 8 * k < n
    ensures var all, b, count := Payload(input, n, rightAligned), RoundByte(input, n, rightAligned, k),
            Min(8, n - 8 * k);
            all[..Min(n, 8 * (k + 1))] == all[..Min(n, 8 * k)] + TakeBits([b], count)
  {
    RoundIsSource(input, n, rightAligned, k);
    var src, b, count := LeftAligned(input, n, rightAligned), RoundByte(input, n, rightAligned, k), Min(8, n - 8 * k);
    forall i: nat | i < count
      ensures TakeBits(src, n)[8 * k + i] == TakeBits([b], count)[i]
    {
      assert (8 * k + i) / 8 == k && (8 * k + i) % 8 == i;
    }
  }

  lemma RoundIsSource(input: seq<byte>, n: nat, rightAligned: bool, k: nat)
    requires n <= 8 * |input| && 8 * k < n
    ensures RoundByte(input, n, rightAligned, k) == LeftAligned(input, n, rightAligned)[k]
  {
    if n - 8 * k < 8 {
      assert n / 8 == k && n % 8 == n - 8 * k;
    }
  }

  lemma RoundTail(used: nat, input: seq<byte>, n: nat, rightAligned: bool, k: nat)
    requires n <= 8 * |input| && 8 * k < n
    ensures CleanTail(used + 8 * k, RoundByte(input, n, rightAligned, k), Min(8, n - 8 * k)) <==>
            (8 * k + 8 < n || TailOk(used, input, n, rightAligned))
  {
    RoundIsSource(input, n, rightAligned, k);
    if n <= 8 * k + 8 {
      assert (n - 1) / 8 == k;
    }
  }

  // what a stream holds after k rounds of the write loop, and whether its tail is zero
  ghost predicate RoundState(bits: seq<bool>, zeroTail: bool, before: seq<bool>, input: seq<byte>, n: nat,
                             rightAligned: bool, k: nat)
    requires n <= 8 * |input|
  {
    && bits == before + Payload(input, n, rightAligned)[..Min(n, 8 * k)]
    && (8 * k < n ==> zeroTail)
    && (n <= 8 * k ==> (zeroTail <==> TailOk(|before|, input, n, rightAligned)))
  }

  lemma RoundStep(bits: seq<bool>, before: seq<bool>, input: seq<byte>, n: nat, rightAligned: bool, k: nat)
    requires n <= 8 * |input| && 8 * k < n
    requires RoundState(bits, true, before, input, n, rightAligned, k)
    ensures var b, count := RoundByte(input, n, rightAligned, k), Min(8, n - 8 * k);
            RoundState(bits + TakeBits([b], count), CleanTail(|bits|, b, count), before, input, n, rightAligned, k + 1)
  {
    hide TailOk, CleanTail, TakeBits, Payload, RoundByte, LeftAligned;
    RoundBits(input, n, rightAligned, k);
    RoundTail(|before|, input, n, rightAligned, k);
    AppendAssoc(before, Payload(input, n, rightAligned)[..Min(n, 8 * k)],
      TakeBits([RoundByte(input, n, rightAligned, k)], Min(8, n - 8 * k)));
  }

  lemma TakeBitsPrefix(s: seq<byte>, t: seq<byte>, n: nat)
    requires n <= 8 * |s| && n <= 8 * |t|
    requires s[..BytesFor(n)] == t[..BytesFor(n)]
    ensures TakeBits(s, n) == TakeBits(t, n)
    ensures ZeroFrom(s, n) == ZeroFrom(t, n)
  {
    forall p: nat | p < 8 * BytesFor(n)
      ensures Bit(s, p) == Bit(t, p)
    {
      assert s[p / 8] == s[..BytesFor(n)][p / 8] == t[p / 8];
    }
  }

  // the test for growth compares whole bytes
  lemma GrowthArithmetic(capacity: nat, needed: nat)
    requires needed > 0
    ensures (capacity - 1) / 8 < (needed - 1) / 8 <==> BytesFor(capacity) < BytesFor(needed)
    ensures BytesFor(capacity) < BytesFor(needed) ==>
            2 * BytesFor(capacity) < BytesFor(2 * needed) && capacity < 2 * needed
    ensures BytesFor(needed) <= BytesFor(2 * needed)
    ensures needed <= capacity ==> BytesFor(needed) <= BytesFor(capacity)
    ensures capacity < needed ==> BytesFor(capacity) <= BytesFor(needed)
  {
  }

  // how many bits a bounded copy from a stream with this many bits left takes
  function Copied(wanted: int, left: int): nat {
    if wanted <= 0 || left <= 0 then 0 else Min(wanted, left)
  }

  // what the calls of a compressed write ask for, in bits, from a position on: one flag for each elided
  // byte, then a flag and the rest
  function CompressNeeds(v: seq<byte>, unsignedData: bool, used: nat): seq<nat>
    requires |v| >= 1
    decreases |v|
  {
    var top := |v| - 1;
    if top == 0 then
      [used + 1, used + 1 + if v[0] & 0xF0 == HalfByteMatch(unsignedData) then 4 else 8]
    else if v[top] == ByteMatch(unsignedData) then
      [used + 1] + CompressNeeds(v[..top], unsignedData, used + 1)
    else
      [used + 1, used + 1 + 8 * |v|]
  }

  lemma NeedsOf(v: seq<byte>, unsignedData: bool, used: nat, r: Room)
    requires |v| >= 1
    ensures var top, all := |v| - 1, GrowAll(r, CompressNeeds(v, unsignedData, used));
            if top == 0 then
              all == Grow(Grow(r, used + 1), used + 1 + if v[0] & 0xF0 == HalfByteMatch(unsignedData) then 4 else 8)
            else if v[top] == ByteMatch(unsignedData) then
              all == GrowAll(Grow(r, used + 1), CompressNeeds(v[..top], unsignedData, used + 1))
            else
              all == Grow(Grow(r, used + 1), used + 1 + 8 * |v|)
  {
    hide Grow;
    var top, needs := |v| - 1, CompressNeeds(v, unsignedData, used);
    if top > 0 && v[top] == ByteMatch(unsignedData) {
      assert needs[1..] == CompressNeeds(v[..top], unsignedData, used + 1);
    } else {
      TwoNeeds(r, needs[0], needs[1]);
    }
  }

  lemma Boundary(s: seq<byte>, offset: nat)
    requires offset <= 8 * |s|
    ensures offset % 8 == 0 ==> ZeroFrom(s, offset)
  {
  }

  // A stream of one full byte, cut to four bits and extended by four zeros: the four old bits are back.
  lemma CutInMidByte()
    ensures var s: seq<byte> := [0xFF, 0];
            && !ZeroFrom(s, 4)
            && TakeBits(PutByte(s, 4, 0, 4), 8) == TakeBits(s, 8)
            && TakeBits(s, 8) != TakeBits(s, 4) + TakeBits([0], 4)
  {
    hide BitAt;
    var s: seq<byte> := [0xFF, 0];
    assert ShiftRight(0, 4) == 0;
    assert PutByte(s, 4, 0, 4) == s;
    BitMasks(0xFF);
    BitMasks(0);
    assert Bit(s, 7) && !Bit([0], 3);
    assert TakeBits(s, 8)[7] && !(TakeBits(s, 4) + TakeBits([0], 4))[7];
  }

  lemma OneBit(used: nat, bit: bool)
    ensures TakeBits([if bit then 0x80 else 0], 1) == [bit]
    ensures CleanTail(used, if bit then 0x80 else 0, 1)
  {
    hide BitAt;
    BitMasks(0);
    BitMasks(0x80);
  }

  // copying whole bytes over a byte-aligned cursor appends their bits
  lemma PutWholeBits(s: seq<byte>, k: nat, input: seq<byte>)
    requires k + |input| <= |s|
    ensures var r := s[..k] + input + s[k + |input|..];
            TakeBits(r, 8 * k + 8 * |input|) == TakeBits(s, 8 * k) + AllBits(input) && ZeroFrom(r, 8 * k + 8 * |input|)
  {
    hide BitAt;
    var r := s[..k] + input + s[k + |input|..];
    forall p: nat | p < 8 * k + 8 * |input|
      ensures Bit(r, p) == if p < 8 * k then Bit(s, p) else Bit(input, p - 8 * k)
    {
    }
  }

  lemma WholeBits(s: seq<byte>, t: seq<byte>)
    requires |t| <= |s| && s[..|t|] == t
    ensures TakeBits(s, 8 * |t|) == AllBits(t) && ZeroFrom(s, 8 * |t|)
  {
    hide BitAt;
    TakeBitsPrefix(s, t, 8 * |t|);
  }

  lemma BytesForMonotone(a: nat, b: nat)
    requires a <= b
    ensures BytesFor(a) <= BytesFor(b)
  {
  }

  lemma AppendFlagged(a: seq<bool>, b: seq<bool>, flag: bool, c: seq<bool>)
    ensures a + b + [flag] + c == a + (b + ([flag] + c))
  {
  }

  lemma Splice<T>(all: seq<T>, a: seq<T>, b: seq<T>, c: seq<T>)
    requires all == a + b + c
    ensures all[..|a|] == a && all[|a|..|a| + |b|] == b && all[|a| + |b|..] == c
  {
  }

  lemma KeepEnd<T>(all: seq<T>, was: seq<T>, at: nat, mid: nat, end: nat)
    requires at <= mid <= end <= |all| == |was| && all[mid..] == was[mid..]
    ensures all[mid..end] == was[mid..end] && all[end..] == was[end..]
    ensures all[at..end] == all[at..mid] + all[mid..end]
  {
    assert all[mid..][..end - mid] == was[mid..][..end - mid];
    assert all[mid..][end - mid..] == was[mid..][end - mid..];
  }

  lemma CopiedOneMore(before: seq<bool>, all: seq<bool>, from: nat, done: nat)
    requires from + done < |all|
    ensures before + (if done == 0 then [] else all[from..from + done]) + [all[from + done]] ==
            before + all[from..from + done + 1]
  {
    assert (if done == 0 then [] else all[from..from + done]) + [all[from + done]] == all[from..from + done + 1];
  }

  // the rest of i after taking p away as often as possible
  function Cycled(i: nat, p: nat): (k: nat)
    requires p > 0
    ensures k < p
    decreases i
  {
    if i < p then i else Cycled(i - p, p)
  }

  // the part from a position on, over and over
  function Repeated(all: seq<bool>, from: nat, n: nat): (bits: seq<bool>)
    requires n == 0 || from < |all|
    ensures |bits| == n
  {
    seq(n, i requires 0 <= i < n => all[from + Cycled(i, |all| - from)])
  }

  lemma NoneRepeated(all: seq<bool>, from: nat)
    ensures all + Repeated(all, from, 0) == all
  {
  }

  lemma RepeatedOneMore(all: seq<bool>, from: nat, n: nat)
    requires from < |all|
    ensures all + Repeated(all, from, n) + [(all + Repeated(all, from, n))[from + n]] ==
            all + Repeated(all, from, n + 1)
  {
    var r, p := Repeated(all, from, n), |all| - from;
    if n >= p {
      assert (all + r)[from + n] == r[n - p];
    }
    assert r + [all[from + Cycled(n, p)]] == Repeated(all, from, n + 1);
  }

  lemma RepeatedPeriod(all: seq<bool>, from: nat, n: nat)
    requires from < |all|
    ensures var bits := all + Repeated(all, from, n);
            forall i :: |all| <= i < |all| + n ==> bits[i] == bits[i - (|all| - from)]
  {
    var bits, p := all + Repeated(all, from, n), |all| - from;
    forall i | |all| <= i < |all| + n
      ensures bits[i] == bits[i - p]
    {
      if i - |all| >= p {
        assert bits[i - p] == Repeated(all, from, n)[i - p - |all|];
      }
    }
  }

  function Min(a: nat, b: nat): nat {
    if a <= b then a else b
  }

  // memcpy
  method CopyBytes(dst: array<byte>, at: nat, src: seq<byte>)
    requires at + |src| <= dst.Length
    modifies dst
    ensures dst[..] == old(dst[..at]) + src + old(dst[at + |src|..])
  {
    forall i | 0 <= i < |src| {
      dst[at + i] := src[i];
    }
  }

  lemma WholeBlock(n: nat)
    ensures BytesFor(n * 8) == n && BytesFor(STACK_ALLOCATION_SIZE * 8) == STACK_ALLOCATION_SIZE
  {
  }

  class BitStream {
    var numberOfBitsUsed: nat
    var numberOfBitsAllocated: nat
    var readOffset: nat
    var data: array<byte>
    var copyData: bool
    const stackData: array<byte>
    // bytes copied by growth so far, and the largest number of bytes ever needed
    ghost var bytesCopied: nat
    ghost var peakBytes: nat

    // what has become of the buffer so far
    ghost function Space(): Room
      reads `numberOfBitsAllocated, `data, `copyData, `bytesCopied, `peakBytes
    {
      var place := if data == stackData then Inside else if copyData then OnHeap else Borrowed;
      Room(numberOfBitsAllocated, place, bytesCopied, peakBytes)
    }

    ghost function Footprint(): set<object>
      reads this
    {
      {this, data, stackData}
    }

    ghost predicate WellFormed()
      reads this
    {
      && BytesFor(numberOfBitsUsed) <= BytesFor(numberOfBitsAllocated) <= data.Length
      && stackData.Length == STACK_ALLOCATION_SIZE
      && Amortised(Space())
    }

    // later writes OR into the last partial byte, so its unused bits have to be zero
    ghost predicate ZeroTail()
      reads this, data
      requires WellFormed()
    {
      ZeroFrom(data[..], numberOfBitsUsed)
    }

    ghost predicate Valid()
      reads this, data
    {
      WellFormed() && ZeroTail()
    }

    ghost function Bits(): seq<bool>
      reads this, data
      requires WellFormed()
    {
      TakeBits(data[..], numberOfBitsUsed)
    }

    // the bits between the read cursor and the write cursor
    ghost function Unread(): seq<bool>
      reads this, data
      requires WellFormed()
    {
      if readOffset <= numberOfBitsUsed then Bits()[readOffset..] else []
    }

    constructor ()
      ensures Valid() && fresh(Footprint())
      ensures Bits() == [] && readOffset == 0
      ensures numberOfBitsAllocated == 2048 && data == stackData && bytesCopied == 0 && peakBytes == 0
    {
      numberOfBitsUsed := 0;
      numberOfBitsAllocated := STACK_ALLOCATION_SIZE * 8;
      readOffset := 0;
      var stack := new byte[STACK_ALLOCATION_SIZE];
      stackData := stack;
      data := stack;
      copyData := true;
      bytesCopied, peakBytes := 0, 0;
    }

    constructor WithCapacity(initialBytesToAllocate: nat)
      ensures Valid() && fresh(Footprint())
      ensures Bits() == [] && readOffset == 0 && initialBytesToAllocate <= data.Length
      ensures numberOfBitsAllocated == if initialBytesToAllocate <= 256 then 2048 else 8 * initialBytesToAllocate
      ensures bytesCopied == 0 && peakBytes == 0
    {
      numberOfBitsUsed := 0;
      readOffset := 0;
      var stack := new byte[STACK_ALLOCATION_SIZE];
      stackData := stack;
      if initialBytesToAllocate <= STACK_ALLOCATION_SIZE {
        data := stack;
        numberOfBitsAllocated := STACK_ALLOCATION_SIZE * 8;
      } else {
        data := new byte[initialBytesToAllocate];
        numberOfBitsAllocated := initialBytesToAllocate * 8;
      }
      copyData := true;
      bytesCopied, peakBytes := 0, 0;
    }

    // A stream over given bytes: a private copy, or the caller's own array
    constructor FromBytes(bytes: array<byte>, lengthInBytes: nat, copy: bool)
      requires lengthInBytes <= bytes.Length
      ensures Valid() && fresh(Footprint() - {bytes}) && (copy ==> fresh(Footprint()))
      ensures Bits() == AllBits(bytes[..lengthInBytes]) && readOffset == 0
      ensures copy ==> bytes[..] == old(bytes[..])
      ensures !copy ==> data == bytes
      ensures numberOfBitsAllocated == if copy && 0 < lengthInBytes < 256 then 2048 else 8 * lengthInBytes
    {
      hide TakeBits, ZeroFrom, Amortised, BytesFor;
      WholeBlock(lengthInBytes);
      numberOfBitsUsed := lengthInBytes * 8;
      readOffset := 0;
      copyData := copy;
      var stack := new byte[STACK_ALLOCATION_SIZE];
      stackData := stack;
      numberOfBitsAllocated := lengthInBytes * 8;
      var block := bytes;
      if copy {
        if 0 < lengthInBytes < STACK_ALLOCATION_SIZE {
          block := stack;
          numberOfBitsAllocated := STACK_ALLOCATION_SIZE * 8;
        } else {
          block := new byte[lengthInBytes];
        }
        CopyBytes(block, 0, bytes[..lengthInBytes]);
      }
      data := block;
      bytesCopied, peakBytes := 0, 0;
      new;
      NothingCopied(Space());
      WholeBits(data[..], bytes[..lengthInBytes]);
    }

    // Makes room for numberOfBitsToWrite more bits; the written bits and the zero tail stay.
    method AddBitsAndReallocate(numberOfBitsToWrite: int)
      requires Valid()
      modifies this, stackData
      ensures Valid() && Bits() == old(Bits())
      ensures data == old(data) || data == stackData || fresh(data)
      ensures numberOfBitsUsed == old(numberOfBitsUsed) && readOffset == old(readOffset)
      ensures numberOfBitsToWrite > 0 ==>
              BytesFor(numberOfBitsUsed + numberOfBitsToWrite) <= BytesFor(numberOfBitsAllocated)
      ensures bytesCopied == old(bytesCopied) + if data != old(data) then BytesFor(old(numberOfBitsAllocated)) else 0
      ensures peakBytes == if numberOfBitsToWrite <= 0 then old(peakBytes)
                           else Max(old(peakBytes), BytesFor(numberOfBitsUsed + numberOfBitsToWrite))
      ensures Space() == GrowBy(old(Space()), numberOfBitsUsed, numberOfBitsToWrite)
      ensures var need, capacity := numberOfBitsUsed + numberOfBitsToWrite, old(numberOfBitsAllocated);
              numberOfBitsAllocated == if numberOfBitsToWrite <= 0 then capacity
                                       else if BytesFor(capacity) < BytesFor(need) then 2 * need
                                       else if capacity < need then need else capacity
    {
      hide TakeBits, ZeroFrom, Amortised, Reallocated, BytesFor;
      if numberOfBitsToWrite <= 0 {
        return;
      }
      var newNumberOfBitsAllocated := numberOfBitsToWrite + numberOfBitsUsed;
      BytesForMonotone(numberOfBitsUsed, newNumberOfBitsAllocated);
      GrowthArithmetic(numberOfBitsAllocated, newNumberOfBitsAllocated);
      GrowAmortised(Space(), newNumberOfBitsAllocated);
      peakBytes := Max(peakBytes, BytesFor(newNumberOfBitsAllocated));
      if (numberOfBitsAllocated - 1) / 8 < (newNumberOfBitsAllocated - 1) / 8 {
        newNumberOfBitsAllocated := (numberOfBitsToWrite + numberOfBitsUsed) * 2;
        Reallocate(BytesFor(newNumberOfBitsAllocated));
      }
      if newNumberOfBitsAllocated > numberOfBitsAllocated {
        numberOfBitsAllocated := newNumberOfBitsAllocated;
      }
    }

    // the three ways of moving to a larger block: off the stack, by realloc, and away from a caller's buffer
    method Reallocate(amountToAllocate: nat)
      requires BytesFor(numberOfBitsUsed) <= BytesFor(numberOfBitsAllocated) <= data.Length
      requires stackData.Length == STACK_ALLOCATION_SIZE && 2 * BytesFor(numberOfBitsAllocated) < amountToAllocate
      modifies this`data, this`copyData, this`bytesCopied, stackData
      ensures data == old(data) || data == stackData || fresh(data)
      ensures amountToAllocate <= data.Length
      ensures TakeBits(data[..], numberOfBitsUsed) == old(TakeBits(data[..], numberOfBitsUsed))
      ensures ZeroFrom(data[..], numberOfBitsUsed) == old(ZeroFrom(data[..], numberOfBitsUsed))
      ensures Space() == Reallocated(old(Space()), amountToAllocate)
      ensures bytesCopied == old(bytesCopied) + if data != old(data) then BytesFor(numberOfBitsAllocated) else 0
    {
      hide TakeBits, ZeroFrom;
      if data == stackData && amountToAllocate <= STACK_ALLOCATION_SIZE {
        return;
      }
      var kept := data[..BytesFor(numberOfBitsAllocated)];
      var block := stackData;
      if data == stackData || copyData || amountToAllocate > STACK_ALLOCATION_SIZE {
        block := new byte[amountToAllocate];
      }
      copyData := true;
      CopyBytes(block, 0, kept);
      TakeBitsPrefix(old(data[..]), block[..], numberOfBitsUsed);
      bytesCopied := bytesCopied + |kept|;
      data := block;
    }

    // one round of the write loop: the two-step store at the cursor, then the advance
    method WriteByte(dataByte: byte, n: nat)
      requires Valid() && 1 <= n <= 8
      requires BytesFor(numberOfBitsUsed + n) <= BytesFor(numberOfBitsAllocated)
      modifies data, this`numberOfBitsUsed
      ensures WellFormed() && numberOfBitsUsed == old(numberOfBitsUsed) + n
      ensures Bits() == old(Bits()) + TakeBits([dataByte], n)
      ensures Valid() <==> CleanTail(old(numberOfBitsUsed), dataByte, n)
    {
      hide PutByte, TakeBits, ZeroFrom, CleanTail;
      PutByteBits(data[..], numberOfBitsUsed, dataByte, n);
      PutByteTail(data[..], numberOfBitsUsed, dataByte, n);
      StoreByte(dataByte, n);
      numberOfBitsUsed := numberOfBitsUsed + n;
    }

    method StoreByte(dataByte: byte, n: nat)
      requires 1 <= n <= 8 && numberOfBitsUsed + n <= 8 * data.Length
      modifies data
      ensures data[..] == PutByte(old(data[..]), numberOfBitsUsed, dataByte, n)
    {
      var k, numberOfBitsUsedMod8 := numberOfBitsUsed / 8, numberOfBitsUsed % 8;
      if numberOfBitsUsedMod8 == 0 {
        data[k] := dataByte;
      } else {
        data[k] := data[k] | ShiftRight(dataByte, numberOfBitsUsedMod8);
        if 8 - numberOfBitsUsedMod8 < n {
          data[k + 1] := ShiftLeft(dataByte, 8 - numberOfBitsUsedMod8);
        }
      }
    }

    method WriteRound(input: seq<byte>, left: nat, offset: nat, rightAlignedBits: bool, ghost before: seq<bool>,
                      ghost n: nat)
      requires n == 8 * offset + left <= 8 * |input| && left > 0
      requires Valid() && RoundState(Bits(), true, before, input, n, rightAlignedBits, offset)
      requires BytesFor(numberOfBitsUsed + left) <= BytesFor(numberOfBitsAllocated)
      modifies data, this`numberOfBitsUsed
      ensures WellFormed() && numberOfBitsUsed == old(numberOfBitsUsed) + Min(8, left)
      ensures RoundState(Bits(), ZeroTail(), before, input, n, rightAlignedBits, offset + 1)
    {
      hide RoundState, TakeBits, RoundByte, CleanTail, BytesFor, ZeroFrom;
      var dataByte := RoundByte(input, left + 8 * offset, rightAlignedBits, offset);
      RoundStep(Bits(), before, input, n, rightAlignedBits, offset);
      BytesForMonotone(numberOfBitsUsed + Min(8, left), numberOfBitsUsed + left);
      WriteByte(dataByte, Min(8, left));
    }

    method WriteBits(input: seq<byte>, numberOfBitsToWrite: int, rightAlignedBits: bool := true)
      requires Valid() && numberOfBitsToWrite <= 8 * |input|
      modifies Footprint()
      ensures WellFormed() && fresh(Footprint() - old(Footprint()))
      ensures Bits() == old(Bits()) + Payload(input, numberOfBitsToWrite, rightAlignedBits)
      ensures ZeroTail() <==> TailOk(old(numberOfBitsUsed), input, numberOfBitsToWrite, rightAlignedBits)
      ensures readOffset == old(readOffset) &&
              Space() == GrowBy(old(Space()), old(numberOfBitsUsed), numberOfBitsToWrite)
    {
      hide Grow, Amortised;
      if numberOfBitsToWrite <= 0 {
        return;
      }
      AddBitsAndReallocate(numberOfBitsToWrite);
      ghost var before, capacity, block, room := Bits(), numberOfBitsAllocated, data, Space();
      var offset, left: int := 0, numberOfBitsToWrite;
      while left > 0
        invariant data == block && numberOfBitsAllocated == capacity && readOffset == old(readOffset)
        invariant Space() == room
        invariant left == numberOfBitsToWrite - 8 * offset
        invariant left > 0 ==> numberOfBitsUsed == |before| + 8 * offset
        invariant WellFormed() && RoundState(Bits(), ZeroTail(), before, input, numberOfBitsToWrite, rightAlignedBits,
                  offset)
      {
        WriteRound(input, left, offset, rightAlignedBits, before, numberOfBitsToWrite);
        left := left - 8;
        offset := offset + 1;
      }
      assert Payload(input, numberOfBitsToWrite, rightAlignedBits)[..numberOfBitsToWrite] ==
        Payload(input, numberOfBitsToWrite, rightAlignedBits);
    }

    // one bit at the write cursor: a new byte is assigned, a started one is ORed into
    method StoreBit(bit: bool)
      requires Valid() && BytesFor(numberOfBitsUsed + 1) <= BytesFor(numberOfBitsAllocated)
      modifies data, this`numberOfBitsUsed
      ensures Valid() && Bits() == old(Bits()) + [bit]
    {
      hide TakeBits, ZeroFrom, CleanTail;
      var one: byte := if bit then 0x80 else 0;
      OneBit(numberOfBitsUsed, bit);
      PutByteBits(data[..], numberOfBitsUsed, one, 1);
      PutByteTail(data[..], numberOfBitsUsed, one, 1);
      ShiftRightZero(numberOfBitsUsed % 8);
      if numberOfBitsUsed % 8 == 0 {
        data[numberOfBitsUsed / 8] := one;
      } else if bit {
        data[numberOfBitsUsed / 8] := data[numberOfBitsUsed / 8] | ShiftRight(0x80, numberOfBitsUsed % 8);
      }
      assert data[..] == PutByte(old(data[..]), numberOfBitsUsed, one, 1);
      numberOfBitsUsed := numberOfBitsUsed + 1;
    }

    method Write0()
      requires Valid()
      modifies Footprint()
      ensures Valid() && fresh(Footprint() - old(Footprint()))
      ensures Bits() == old(Bits()) + [false] && readOffset == old(readOffset)
      ensures Space() == Grow(old(Space()), old(numberOfBitsUsed) + 1)
    {
      hide TakeBits, ZeroFrom, Grow, Amortised;
      AddBitsAndReallocate(1);
      StoreBit(false);
    }

    method Write1()
      requires Valid()
      modifies Footprint()
      ensures Valid() && fresh(Footprint() - old(Footprint()))
      ensures Bits() == old(Bits()) + [true] && readOffset == old(readOffset)
      ensures Space() == Grow(old(Space()), old(numberOfBitsUsed) + 1)
    {
      hide TakeBits, ZeroFrom, Grow, Amortised;
      AddBitsAndReallocate(1);
      StoreBit(true);
    }

    method WriteBool(value: bool)
      requires Valid()
      modifies Footprint()
      ensures Valid() && fresh(Footprint() - old(Footprint()))
      ensures Bits() == old(Bits()) + [value] && readOffset == old(readOffset)
      ensures Space() == Grow(old(Space()), old(numberOfBitsUsed) + 1)
    {
      hide Grow, Amortised;
      if value {
        Write1();
      } else {
        Write0();
      }
    }

    // Write of a native value, already in stream byte order
    method WriteValue(value: seq<byte>)
      requires Valid()
      modifies Footprint()
      ensures Valid() && fresh(Footprint() - old(Footprint()))
      ensures Bits() == old(Bits()) + AllBits(value) && readOffset == old(readOffset)
      ensures Space() == GrowBy(old(Space()), old(numberOfBitsUsed), 8 * |value|)
    {
      hide TakeBits, ZeroFrom, TailOk, Grow, Amortised;
      TailOkWhen(numberOfBitsUsed, value, 8 * |value|, true);
      WriteBits(value, 8 * |value|, true);
    }

    // Write of a byte array: memcpy when the cursor is on a byte boundary
    method WriteBytes(input: seq<byte>)
      requires Valid()
      modifies Footprint()
      ensures Valid() && fresh(Footprint() - old(Footprint()))
      ensures Bits() == old(Bits()) + AllBits(input) && readOffset == old(readOffset)
      ensures Space() == GrowBy(old(Space()), old(numberOfBitsUsed), 8 * |input|)
    {
      hide TakeBits, ZeroFrom, TailOk, Grow, Amortised;
      if |input| == 0 {
        assert AllBits(input) == [];
        return;
      }
      if numberOfBitsUsed % 8 == 0 {
        AddBitsAndReallocate(8 * |input|);
        PutWholeBits(data[..], numberOfBitsUsed / 8, input);
        CopyBytes(data, numberOfBitsUsed / 8, input);
        numberOfBitsUsed := numberOfBitsUsed + 8 * |input|;
      } else {
        TailOkWhen(numberOfBitsUsed, input, 8 * |input|, true);
        WriteBits(input, 8 * |input|, true);
      }
    }

    method CopyBit(source: BitStream)
      requires Valid() && source.Valid() && source.Footprint() !! Footprint()
      requires BytesFor(numberOfBitsUsed + 1) <= BytesFor(numberOfBitsAllocated) &&
               source.readOffset < source.numberOfBitsUsed
      modifies data, this`numberOfBitsUsed, source`readOffset
      ensures Valid() && Bits() == old(Bits()) + [old(source.Bits())[old(source.readOffset)]]
      ensures numberOfBitsUsed == old(numberOfBitsUsed) + 1 && source.readOffset == old(source.readOffset) + 1
      ensures source.Valid() && source.Bits() == old(source.Bits())
    {
      hide TakeBits, ZeroFrom;
      var bit := source.ReadBit();
      StoreBit(bit);
    }

    // Write of another stream, bit by bit from its read cursor
    method WriteStream(source: BitStream, numberOfBits: int)
      requires Valid() && source.Valid() && source.Footprint() !! Footprint()
      modifies Footprint(), source`readOffset
      ensures Valid() && fresh(Footprint() - old(Footprint())) && readOffset == old(readOffset)
      ensures source.Valid() && source.Bits() == old(source.Bits())
      ensures var from, left := old(source.readOffset), old(source.numberOfBitsUsed - source.readOffset);
              var count := if numberOfBits <= 0 || left <= 0 then 0
                           else if numberOfBits <= left then numberOfBits else left;
              source.readOffset == from + count &&
              Bits() == old(Bits()) + (if count == 0 then [] else source.Bits()[from..from + count])
      ensures Space() == GrowBy(old(Space()), old(numberOfBitsUsed), numberOfBits)
    {
      hide TakeBits, GrowBy, BytesFor, ZeroFrom, Amortised;
      AddBitsAndReallocate(numberOfBits);
      ghost var before, from, all := Bits(), source.readOffset, source.Bits();
      ghost var room, block, space := numberOfBitsAllocated, data, Space();
      var left := numberOfBits;
      ghost var done: nat := 0;
      while left > 0 && source.readOffset + 1 <= source.numberOfBitsUsed
        invariant data == block && numberOfBitsAllocated == room && readOffset == old(readOffset)
        invariant Space() == space
        invariant source.Valid() && source.Bits() == all && unchanged(source`data)
        invariant done <= Copied(numberOfBits, |all| - from) && left == numberOfBits - done &&
                  source.readOffset == from + done
        invariant Valid() && numberOfBitsUsed == |before| + done
        invariant Bits() == before + (if done == 0 then [] else all[from..from + done])
      {
        BytesForMonotone(numberOfBitsUsed + 1, |before| + numberOfBits);
        CopiedOneMore(before, all, from, done);
        CopyBit(source);
        left, done := left - 1, done + 1;
      }
    }

    // The same with the stream itself as the source. What it appends counts as unread at once, so every bit
    // asked for is there: the unread bits are repeated over and over.
    method WriteOwn(numberOfBits: int)
      requires Valid()
      modifies Footprint()
      ensures Valid() && fresh(Footprint() - old(Footprint()))
      ensures var from := old(readOffset);
              var n := if numberOfBits <= 0 || old(readOffset >= numberOfBitsUsed) then 0 else numberOfBits;
              readOffset == from + n && Bits() == old(Bits()) + Repeated(old(Bits()), from, n)
      ensures forall i :: old(numberOfBitsUsed) <= i < numberOfBitsUsed ==>
                Bits()[i] == Bits()[i - old(numberOfBitsUsed - readOffset)]
      ensures Space() == GrowBy(old(Space()), old(numberOfBitsUsed), numberOfBits)
    {
      hide TakeBits, GrowBy, BytesFor, ZeroFrom, Amortised, Repeated;
      AddBitsAndReallocate(numberOfBits);
      ghost var before, from, block, room, space := Bits(), readOffset, data, numberOfBitsAllocated, Space();
      NoneRepeated(before, from);
      var left := numberOfBits;
      ghost var done: nat := 0;
      while left > 0 && readOffset + 1 <= numberOfBitsUsed
        invariant data == block && numberOfBitsAllocated == room && Space() == space
        invariant left == numberOfBits - done && (done > 0 ==> left >= 0) && readOffset == from + done
        invariant Valid() && numberOfBitsUsed == |before| + done && (done > 0 ==> from < |before|)
        invariant Bits() == before + Repeated(before, from, done)
      {
        BytesForMonotone(numberOfBitsUsed + 1, |before| + numberOfBits);
        RepeatedOneMore(before, from, done);
        var bit := ReadBit();
        StoreBit(bit);
        left, done := left - 1, done + 1;
      }
      if done > 0 {
        RepeatedPeriod(before, from, done);
      }
    }

    // the bit under the read cursor, without a bounds check
    method ReadBit() returns (bit: bool)
      requires WellFormed() && readOffset < numberOfBitsUsed
      modifies this`readOffset
      ensures bit == Bits()[old(readOffset)] && readOffset == old(readOffset) + 1
    {
      hide BitAt, ShiftRight;
      TestBit(data[readOffset / 8], readOffset % 8);
      bit := data[readOffset / 8] & ShiftRight(0x80, readOffset % 8) != 0;
      readOffset := readOffset + 1;
    }

    method ReadBool() returns (ok: bool, value: bool)
      requires WellFormed()
      modifies this`readOffset
      ensures ok <==> old(Unread()) != []
      ensures ok ==> value == old(Unread())[0] && Unread() == old(Unread())[1..] && readOffset == old(readOffset) + 1
      ensures !ok ==> readOffset == old(readOffset)
    {
      hide TakeBits;
      if readOffset + 1 > numberOfBitsUsed {
        return false, false;
      }
      value := ReadBit();
      ok := true;
    }

    // one round of the read loop
    method ReadRound(left: nat, alignBitsToRight: bool) returns (value: byte)
      requires WellFormed() && left > 0 && readOffset + left <= numberOfBitsUsed
      modifies this`readOffset
      ensures value == FetchByte(data[..], old(readOffset), left, alignBitsToRight)
      ensures readOffset == old(readOffset) + Min(8, left)
    {
      hide ShiftLeft, ShiftRight;
      var k, readOffsetMod8 := readOffset / 8, readOffset % 8;
      value := ShiftLeft(data[k], readOffsetMod8);
      if readOffsetMod8 > 0 && left > 8 - readOffsetMod8 {
        value := value | ShiftRight(data[k + 1], 8 - readOffsetMod8);
      }
      if left < 8 {
        if alignBitsToRight {
          value := ShiftRight(value, 8 - left);
        }
        readOffset := readOffset + left;
      } else {
        readOffset := readOffset + 8;
      }
    }

    // the read loop
    method FetchBits(output: array<byte>, at: nat, numberOfBitsToRead: int, alignBitsToRight: bool)
      returns (ok: bool)
      requires WellFormed() && output != data
      requires 0 < numberOfBitsToRead <= numberOfBitsUsed - readOffset ==>
               at + BytesFor(numberOfBitsToRead) <= output.Length
      modifies this`readOffset, output
      ensures ok <==> 0 < numberOfBitsToRead && old(readOffset) + numberOfBitsToRead <= numberOfBitsUsed
      ensures !ok ==> readOffset == old(readOffset) && output[..] == old(output[..])
      ensures ok ==>
        && readOffset == old(readOffset) + numberOfBitsToRead
        && old(readOffset) + numberOfBitsToRead <= 8 * data.Length
        && output[..] == old(output[..at]) + Fetched(data[..], old(readOffset), numberOfBitsToRead, alignBitsToRight)
                         + old(output[at + BytesFor(numberOfBitsToRead)..])
    {
      hide FetchByte;
      if numberOfBitsToRead <= 0 || readOffset + numberOfBitsToRead > numberOfBitsUsed {
        return false;
      }
      ghost var n: nat, start := numberOfBitsToRead, readOffset;
      ghost var all := Fetched(data[..], start, n, alignBitsToRight);
      var offset, left: int := 0, numberOfBitsToRead;
      while left > 0
        invariant left == n - 8 * offset && offset <= |all|
        invariant left > 0 ==> readOffset == start + 8 * offset
        invariant left <= 0 ==> readOffset == start + n && offset == |all|
        invariant output[..at] == old(output[..at]) && output[at + |all|..] == old(output[at + |all|..])
        invariant output[at..at + offset] == all[..offset]
      {
        var value := ReadRound(left, alignBitsToRight);
        assert value == all[offset];
        output[at + offset] := value;
        left := left - 8;
        offset := offset + 1;
      }
      assert output[..] == output[..at] + output[at..at + |all|] + output[at + |all|..];
      return true;
    }

    // a byte of a right-aligned read as a number
    lemma NumberRead(now: seq<byte>, at: nat, start: nat, n: nat, k: nat)
      requires WellFormed() && start + n <= numberOfBitsUsed && at + BytesFor(n) <= |now| && 8 * k < n
      requires now[at..at + BytesFor(n)] == Fetched(data[..], start, n, true)
      ensures now[at + k] as nat == Number(Bits()[start..][8 * k..Min(8 * k + 8, n)])
    {
      hide TakeBits, Fetched, Number;
      FetchedNumber(data[..], numberOfBitsUsed, start, n, k);
      assert now[at + k] == now[at..at + BytesFor(n)][k];
      assert Bits()[start..][8 * k..Min(8 * k + 8, n)] == Bits()[start + 8 * k..start + Min(8 * k + 8, n)];
    }

    // Reads into output from index at on. Whole bytes, and a right-aligned partial last byte, hold the numbers
    // their bits spell; without alignment a partial last byte keeps, below the bits asked for, whatever bits
    // follow in the same stream byte.
    method ReadBits(output: array<byte>, at: nat, numberOfBitsToRead: int, alignBitsToRight: bool := true)
      returns (ok: bool)
      requires WellFormed() && output != data
      requires 0 < numberOfBitsToRead <= numberOfBitsUsed - readOffset ==>
               at + BytesFor(numberOfBitsToRead) <= output.Length
      modifies this`readOffset, output
      ensures ok <==> 0 < numberOfBitsToRead && old(readOffset) + numberOfBitsToRead <= numberOfBitsUsed
      ensures !ok ==> readOffset == old(readOffset) && output[..] == old(output[..])
      ensures ok ==>
        && readOffset == old(readOffset) + numberOfBitsToRead
        && old(readOffset) + numberOfBitsToRead <= 8 * data.Length
        && output[..] == old(output[..at]) + Fetched(data[..], old(readOffset), numberOfBitsToRead, alignBitsToRight)
                         + old(output[at + BytesFor(numberOfBitsToRead)..])
      ensures ok && alignBitsToRight ==>
        forall i :: at <= i < at + BytesFor(numberOfBitsToRead) ==>
          output[i] as nat == Number(old(Unread())[8 * (i - at)..Min(8 * (i - at) + 8, numberOfBitsToRead)])
    {
      hide TakeBits, Fetched, Number;
      ghost var unread, start := Unread(), readOffset;
      ok := FetchBits(output, at, numberOfBitsToRead, alignBitsToRight);
      if ok && alignBitsToRight {
        assert unread == Bits()[start..];
        forall i | at <= i < at + BytesFor(numberOfBitsToRead)
          ensures output[i] as nat == Number(unread[8 * (i - at)..Min(8 * (i - at) + 8, numberOfBitsToRead)])
        {
          NumberRead(output[..], at, start, numberOfBitsToRead, i - at);
        }
      }
    }

    method WriteCompressed(input: seq<byte>, unsignedData: bool)
      requires Valid() && |input| >= 1
      modifies Footprint()
      ensures Valid() && fresh(Footprint() - old(Footprint()))
      ensures Bits() == old(Bits()) + Compress(input, unsignedData) && readOffset == old(readOffset)
      ensures Space() == GrowAll(old(Space()), CompressNeeds(input, unsignedData, old(numberOfBitsUsed)))
    {
      hide TakeBits, ZeroFrom, TailOk, Payload, AllBits, HalfByteMatch, Grow, GrowAll, CompressNeeds, Amortised,
        BytesFor;
      var currentByte := |input| - 1;
      ghost var before, ones, room := Bits(), [], Space();
      ghost var needs := CompressNeeds(input, unsignedData, numberOfBitsUsed);
      assert input[..|input|] == input && ones + Compress(input, unsignedData) == Compress(input, unsignedData);
      while currentByte > 0
        invariant 0 <= currentByte < |input|
        invariant Valid() && fresh(Footprint() - old(Footprint())) && readOffset == old(readOffset)
        invariant Bits() == before + ones
        invariant Compress(input, unsignedData) == ones + Compress(input[..currentByte + 1], unsignedData)
        invariant GrowAll(room, needs) ==
                  GrowAll(Space(), CompressNeeds(input[..currentByte + 1], unsignedData, numberOfBitsUsed))
        decreases currentByte
      {
        var low := input[..currentByte + 1];
        NeedsOf(low, unsignedData, numberOfBitsUsed, Space());
        if input[currentByte] == ByteMatch(unsignedData) {
          WriteBool(true);
          assert low[..currentByte] == input[..currentByte];
          AppendAssoc(before, ones, [true]);
          AppendAssoc(ones, [true], Compress(input[..currentByte], unsignedData));
          ones := ones + [true];
        } else {
          WriteWhole(low, unsignedData, before, ones);
          return;
        }
        currentByte := currentByte - 1;
      }
      WriteLowByte(input, unsignedData, before, ones);
      assert input[..1] == [input[0]];
      AppendAssoc(before, ones, Compress([input[0]], unsignedData));
    }

    // the first high byte that is not elided ends the code: a flag and everything that is left
    method WriteWhole(low: seq<byte>, unsignedData: bool, ghost before: seq<bool>, ghost ones: seq<bool>)
      requires Valid() && |low| > 1 && low[|low| - 1] != ByteMatch(unsignedData)
      requires Bits() == before + ones
      modifies Footprint()
      ensures Valid() && fresh(Footprint() - old(Footprint()))
      ensures Bits() == before + (ones + Compress(low, unsignedData)) && readOffset == old(readOffset)
      ensures Space() == GrowAll(old(Space()), CompressNeeds(low, unsignedData, old(numberOfBitsUsed)))
    {
      hide TakeBits, ZeroFrom, TailOk, Payload, AllBits, ByteMatch, Grow, GrowAll, CompressNeeds, Amortised;
      NeedsOf(low, unsignedData, numberOfBitsUsed, Space());
      WriteBool(false);
      WriteValue(low);
      AppendFlagged(before, ones, false, AllBits(low));
    }

    method WriteLowByte(input: seq<byte>, unsignedData: bool, ghost before: seq<bool>, ghost ones: seq<bool>)
      requires Valid() && |input| >= 1
      requires Bits() == before + ones
      modifies Footprint()
      ensures Valid() && fresh(Footprint() - old(Footprint()))
      ensures Bits() == (before + ones) + Compress([input[0]], unsignedData) && readOffset == old(readOffset)
      ensures Space() == GrowAll(old(Space()), CompressNeeds([input[0]], unsignedData, old(numberOfBitsUsed)))
    {
      hide TakeBits, ZeroFrom, TailOk, Payload, AllBits, HalfByteMatch, Grow, GrowAll, CompressNeeds, Amortised;
      NeedsOf([input[0]], unsignedData, numberOfBitsUsed, Space());
      if input[0] & 0xF0 == HalfByteMatch(unsignedData) {
        WriteBool(true);
        TailOkWhen(numberOfBitsUsed, [input[0]], 4, true);
        WriteBits([input[0]], 4, true);
        AppendAssoc(before + ones, [true], Payload([input[0]], 4, true));
      } else {
        WriteBool(false);
        WriteValue([input[0]]);
        AppendAssoc(before + ones, [false], AllBits([input[0]]));
      }
    }

    // Read of a native value: a whole number of bytes, in stream byte order
    method ReadValue(output: array<byte>, at: nat, numberOfBytes: nat) returns (ok: bool)
      requires WellFormed() && output != data
      requires numberOfBytes > 0 && at + numberOfBytes <= output.Length
      modifies this`readOffset, output
      ensures ok <==> 8 * numberOfBytes <= |old(Unread())|
      ensures ok ==>
                readOffset == old(readOffset) + 8 * numberOfBytes &&
                output[at..at + numberOfBytes] == Pack(old(Unread())[..8 * numberOfBytes])
      ensures !ok ==> readOffset == old(readOffset) && output[..] == old(output[..])
      ensures output[..at] == old(output[..at]) && output[at + numberOfBytes..] == old(output[at + numberOfBytes..])
    {
      hide TakeBits, Pack, Fetched;
      if readOffset + 8 * numberOfBytes <= numberOfBitsUsed {
        FetchedSlice(data[..], numberOfBitsUsed, readOffset, 8 * numberOfBytes, true);
        assert Bits()[readOffset..readOffset + 8 * numberOfBytes] == Unread()[..8 * numberOfBytes];
      }
      ok := ReadBits(output, at, 8 * numberOfBytes);
      if ok {
        Splice(output[..], old(output[..at]), Pack(old(Unread())[..8 * numberOfBytes]),
          old(output[at + numberOfBytes..]));
      }
    }

    method ReadNibble(output: array<byte>, at: nat) returns (ok: bool)
      requires WellFormed() && output != data && at < output.Length
      modifies this`readOffset, output
      ensures ok <==> 4 <= |old(Unread())|
      ensures ok ==> readOffset == old(readOffset) + 4 && output[at] == NibbleFrom(old(Unread())[..4])
      ensures !ok ==> readOffset == old(readOffset) && output[..] == old(output[..])
      ensures output[..at] == old(output[..at]) && output[at + 1..] == old(output[at + 1..])
    {
      hide TakeBits, Fetched, ShiftRight;
      if readOffset + 4 <= numberOfBitsUsed {
        FetchedNibble(data[..], numberOfBitsUsed, readOffset);
        assert Bits()[readOffset..readOffset + 4] == Unread()[..4];
      }
      ok := ReadBits(output, at, 4);
      if ok {
        Splice(output[..], old(output[..at]), [NibbleFrom(old(Unread())[..4])], old(output[at + 1..]));
      }
    }

    method ReadLowByte(output: array<byte>, at: nat, unsignedData: bool) returns (ok: bool)
      requires WellFormed() && output != data && at < output.Length
      modifies this`readOffset, output
      ensures ok <==> Decompress(old(Unread()), 1, unsignedData).Some?
      ensures ok ==>
        var d := Decompress(old(Unread()), 1, unsignedData).value;
        readOffset == old(readOffset) + d.consumed && output[at..at + 1] == d.value
      ensures readOffset == old(readOffset) + Taken(old(Unread()), 1)
      ensures old(Unread()) == [] ==> output[..] == old(output[..])
      ensures output[..at] == old(output[..at]) && output[at + 1..] == old(output[at + 1..])
    {
      hide TakeBits, Pack, Fetched, HalfByteMatch, NibbleFrom;
      var unread, nibble := ReadBool();
      if !unread {
        return false;
      }
      ghost var bits := old(Unread());
      assert |bits| >= 5 ==> bits[1..][..4] == bits[1..5];
      assert |bits| >= 9 ==> bits[1..][..8] == bits[1..9];
      if nibble {
        ok := ReadNibble(output, at);
        if ok {
          output[at] := output[at] | HalfByteMatch(unsignedData);
        }
      } else {
        ok := ReadValue(output, at, 1);
      }
    }

    // the rest of a value whose first flag said that nothing more is elided
    method ReadRemainder(output: array<byte>, at: nat, size: nat, unsignedData: bool) returns (ok: bool)
      requires WellFormed() && output != data
      requires size > 1 && at + size <= output.Length
      modifies this`readOffset, output
      ensures ok <==> Decompress([false] + old(Unread()), size, unsignedData).Some?
      ensures ok ==>
        var d := Decompress([false] + old(Unread()), size, unsignedData).value;
        readOffset + 1 == old(readOffset) + d.consumed && output[at..at + size] == d.value
      ensures readOffset + 1 == old(readOffset) + Taken([false] + old(Unread()), size)
      ensures output[..at] == old(output[..at]) && output[at + size..] == old(output[at + size..])
    {
      hide TakeBits, Pack, Fetched;
      ghost var bits := [false] + Unread();
      assert |bits| >= 1 + 8 * size ==> bits[1..1 + 8 * size] == Unread()[..8 * size];
      ok := ReadValue(output, at, size);
    }

    // what is left to decode once the elided bytes are passed: with a high byte left its flag is already read
    ghost function Pending(currentByte: nat, unsignedData: bool): Option<Decoded>
      reads this, data
      requires WellFormed()
    {
      if currentByte > 0 then
        match Decompress([false] + Unread(), currentByte + 1, unsignedData)
        case None => None
        case Some(d) => Some(Decoded(d.value, d.consumed - 1))
      else
        Decompress(Unread(), 1, unsignedData)
    }

    // one high byte: its flag, and when the byte is elided the value it stands for
    method ReadFlagged(output: array<byte>, at: nat, size: nat, currentByte: nat, unsignedData: bool,
                       ghost all: Option<Decoded>, ghost start: nat, ghost total: nat)
      returns (unread: bool, seen: bool)
      requires WellFormed() && output != data
      requires 0 < currentByte < size && at + size <= output.Length && start <= readOffset
      requires Resumed(all, Decompress(Unread(), currentByte + 1, unsignedData),
               output[at + currentByte + 1..at + size], readOffset - start)
      requires total == readOffset - start + Taken(Unread(), currentByte + 1)
      modifies this`readOffset, output
      ensures start <= readOffset
      ensures !unread ==> all.None?
      ensures unread && seen ==> Resumed(all, Decompress(Unread(), currentByte, unsignedData),
              output[at + currentByte..at + size], readOffset - start)
      ensures unread && !seen ==> Resumed(all, Pending(currentByte, unsignedData),
              output[at + currentByte + 1..at + size], readOffset - start)
      ensures total == readOffset - start + if !unread then 0 else if seen then Taken(Unread(), currentByte)
                                            else Taken([false] + Unread(), currentByte + 1) - 1
      ensures !unread ==> output[..] == old(output[..])
      ensures unread <==> old(Unread()) != []
      ensures output[..at] == old(output[..at]) && output[at + size..] == old(output[at + size..])
    {
      hide TakeBits, Pack, Fetched, HalfByteMatch, ByteMatch, Decompress, NibbleFrom, Resumed, Taken;
      ghost var bits, high := Unread(), output[at + currentByte + 1..at + size];
      TakenStep(bits, currentByte + 1);
      DecompressStep(bits, currentByte + 1, unsignedData, all, high, readOffset - start);
      unread, seen := ReadBool();
      if unread && seen {
        output[at + currentByte] := ByteMatch(unsignedData);
        assert output[at + currentByte..at + size] == [ByteMatch(unsignedData)] + high;
      }
    }

    // the loop over the elided high bytes
    method ReadElided(output: array<byte>, at: nat, size: nat, unsignedData: bool) returns (ok: bool, currentByte: nat)
      requires WellFormed() && output != data
      requires size >= 1 && at + size <= output.Length
      modifies this`readOffset, output
      ensures currentByte < size && old(readOffset) <= readOffset
      ensures var all := Decompress(old(Unread()), size, unsignedData);
              if !ok then all.None? else
              Resumed(all, Pending(currentByte, unsignedData), output[at + currentByte + 1..at + size],
                readOffset - old(readOffset))
      ensures var total := Taken(old(Unread()), size);
              readOffset - old(readOffset) ==
              if !ok then total
              else if currentByte > 0 then total - Taken([false] + Unread(), currentByte + 1) + 1
              else total - Taken(Unread(), 1)
      ensures old(Unread()) == [] ==> output[..] == old(output[..]) && (ok ==> size == 1 && Unread() == [])
      ensures output[..at] == old(output[..at]) && output[at + size..] == old(output[at + size..])
    {
      hide TakeBits, Pack, Fetched, HalfByteMatch, ByteMatch, Decompress, NibbleFrom, Resumed, Taken;
      currentByte := size - 1;
      ghost var start, all, total := readOffset, Decompress(Unread(), size, unsignedData), Taken(Unread(), size);
      ResumedSelf(all);
      assert output[at + size..at + size] == [];
      while currentByte > 0
        invariant currentByte < size && start <= readOffset
        invariant output[..at] == old(output[..at]) && output[at + size..] == old(output[at + size..])
        invariant Resumed(all, Decompress(Unread(), currentByte + 1, unsignedData),
                  output[at + currentByte + 1..at + size], readOffset - start)
        invariant old(Unread()) == [] ==>
                    output[..] == old(output[..]) && readOffset == start &&
                    currentByte == size - 1
        invariant total == readOffset - start + Taken(Unread(), currentByte + 1)
        decreases currentByte
      {
        var unread, seen := ReadFlagged(output, at, size, currentByte, unsignedData, all, start, total);
        if !unread || !seen {
          return unread, currentByte;
        }
        currentByte := currentByte - 1;
      }
      ok := true;
    }

    // what is left once the elided bytes are passed
    method ReadPending(output: array<byte>, at: nat, currentByte: nat, unsignedData: bool) returns (ok: bool)
      requires WellFormed() && output != data && at + currentByte < output.Length
      modifies this`readOffset, output
      ensures var pending := old(Pending(currentByte, unsignedData));
              && (ok <==> pending.Some?)
              && (ok ==> output[at..at + currentByte + 1] == pending.value.value)
              && (ok ==> readOffset == old(readOffset) + pending.value.consumed)
      ensures readOffset - old(readOffset) ==
              if currentByte > 0 then Taken([false] + old(Unread()), currentByte + 1) - 1 else Taken(old(Unread()), 1)
      ensures currentByte == 0 && old(Unread()) == [] ==> output[..] == old(output[..])
      ensures output[..at] == old(output[..at]) && output[at + currentByte + 1..] == old(output[at + currentByte + 1..])
    {
      hide TakeBits, Decompress, Taken;
      if currentByte > 0 {
        ok := ReadRemainder(output, at, currentByte + 1, unsignedData);
      } else {
        ok := ReadLowByte(output, at, unsignedData);
      }
    }

    method ReadCompressed(output: array<byte>, at: nat, size: nat, unsignedData: bool) returns (ok: bool)
      requires WellFormed() && output != data
      requires size >= 1 && at + size <= output.Length
      modifies this`readOffset, output
      ensures ok <==> Decompress(old(Unread()), size, unsignedData).Some?
      ensures ok ==>
        var d := Decompress(old(Unread()), size, unsignedData).value;
        readOffset == old(readOffset) + d.consumed && output[at..at + size] == d.value
      ensures readOffset == old(readOffset) + Taken(old(Unread()), size)
      ensures old(Unread()) == [] ==> output[..] == old(output[..])
      ensures output[..at] == old(output[..at]) && output[at + size..] == old(output[at + size..])
    {
      hide TakeBits, Decompress, Taken, Pending, BytesFor, Amortised, Resumed, Unread, Bits;
      ghost var all, start := Decompress(Unread(), size, unsignedData), readOffset;
      var currentByte;
      ok, currentByte := ReadElided(output, at, size, unsignedData);
      if !ok {
        return;
      }
      ghost var was, rest, middle := output[..], Pending(currentByte, unsignedData), readOffset;
      ok := ReadPending(output, at, currentByte, unsignedData);
      KeepEnd(output[..], was, at, at + currentByte + 1, at + size);
      WholeValue(all, rest, output[at..at + currentByte + 1], was[at + currentByte + 1..at + size], middle - start);
    }

    // Read of a byte array: memcpy from a byte boundary, ReadBits elsewhere. Asking for no bytes
    // succeeds on a byte boundary and fails off it.
    method ReadBytes(output: array<byte>, numberOfBytes: nat) returns (ok: bool)
      requires WellFormed() && output != data && numberOfBytes <= output.Length
      modifies this`readOffset, output
      ensures ok <==>
                old(readOffset) + 8 * numberOfBytes <= numberOfBitsUsed &&
                (numberOfBytes > 0 || old(readOffset) % 8 == 0)
      ensures ok ==>
                readOffset == old(readOffset) + 8 * numberOfBytes &&
                output[..numberOfBytes] == Pack(old(Unread())[..8 * numberOfBytes])
      ensures !ok ==> readOffset == old(readOffset) && output[..] == old(output[..])
      ensures output[numberOfBytes..] == old(output[numberOfBytes..])
    {
      hide TakeBits, Pack, Fetched;
      if readOffset % 8 == 0 {
        if readOffset + 8 * numberOfBytes > numberOfBitsUsed {
          return false;
        }
        AlignedSlice(data[..], numberOfBitsUsed, readOffset / 8, numberOfBytes);
        assert Bits()[readOffset..readOffset + 8 * numberOfBytes] == Unread()[..8 * numberOfBytes];
        CopyBytes(output, 0, data[readOffset / 8..readOffset / 8 + numberOfBytes]);
        readOffset := readOffset + 8 * numberOfBytes;
        ok := true;
      } else if numberOfBytes == 0 {
        ok := ReadBits(output, 0, 0);
      } else {
        ok := ReadValue(output, 0, numberOfBytes);
      }
    }

    method AlignWriteToByteBoundary()
      requires Valid()
      modifies this`numberOfBitsUsed
      ensures Valid() && Bits() == old(Bits()) + Zeros(Padding(old(numberOfBitsUsed)))
      ensures numberOfBitsUsed % 8 == 0 && old(numberOfBitsUsed) <= numberOfBitsUsed < old(numberOfBitsUsed) + 8
    {
      hide TakeBits, ZeroFrom;
      TailBits(data[..], numberOfBitsUsed);
      if numberOfBitsUsed > 0 {
        numberOfBitsUsed := numberOfBitsUsed + (8 - ((numberOfBitsUsed - 1) % 8 + 1));
      }
    }

    method AlignReadToByteBoundary()
      modifies this`readOffset
      ensures readOffset % 8 == 0 && old(readOffset) <= readOffset < old(readOffset) + 8
      ensures readOffset == 8 * BytesFor(old(readOffset))
    {
      if readOffset > 0 {
        readOffset := readOffset + (8 - ((readOffset - 1) % 8 + 1));
      }
    }

    method WriteAlignedBytes(input: seq<byte>)
      requires Valid()
      modifies Footprint()
      ensures Valid() && fresh(Footprint() - old(Footprint()))
      ensures Bits() == old(Bits()) + (Zeros(Padding(old(numberOfBitsUsed))) + AllBits(input)) &&
              readOffset == old(readOffset)
      ensures Space() == GrowBy(old(Space()), 8 * BytesFor(old(numberOfBitsUsed)), 8 * |input|)
    {
      hide TakeBits, ZeroFrom, GrowBy, Amortised;
      AlignWriteToByteBoundary();
      WriteBytes(input);
      AppendAssoc(old(Bits()), Zeros(Padding(old(numberOfBitsUsed))), AllBits(input));
    }

    method ReadAlignedBytes(output: array<byte>, numberOfBytesToRead: nat) returns (ok: bool)
      requires WellFormed() && output != data && numberOfBytesToRead <= output.Length
      modifies this`readOffset, output
      ensures var from, end := 8 * BytesFor(old(readOffset)), 8 * BytesFor(old(readOffset)) + 8 * numberOfBytesToRead;
              && (ok <==> numberOfBytesToRead > 0 && end <= numberOfBitsUsed)
              && (ok ==> readOffset == end && output[..numberOfBytesToRead] == Pack(Bits()[from..end]))
              && (!ok ==>
                  readOffset == (if numberOfBytesToRead > 0 then from else old(readOffset)) &&
                  output[..] == old(output[..]))
      ensures output[numberOfBytesToRead..] == old(output[numberOfBytesToRead..])
    {
      hide TakeBits, Pack, Amortised, Zeros;
      if numberOfBytesToRead <= 0 {
        return false;
      }
      AlignReadToByteBoundary();
      if readOffset + 8 * numberOfBytesToRead > numberOfBitsUsed {
        return false;
      }
      AlignedSlice(data[..], numberOfBitsUsed, readOffset / 8, numberOfBytesToRead);
      CopyBytes(output, 0, data[readOffset / 8..readOffset / 8 + numberOfBytesToRead]);
      readOffset := readOffset + 8 * numberOfBytesToRead;
      ok := true;
    }

    method Reset()
      requires WellFormed()
      modifies this`numberOfBitsUsed, this`readOffset
      ensures Valid() && Bits() == [] && readOffset == 0
    {
      numberOfBitsUsed := 0;
      readOffset := 0;
    }

    method IgnoreBits(numberOfBits: int)
      requires readOffset + numberOfBits >= 0
      modifies this`readOffset
      ensures readOffset == old(readOffset) + numberOfBits
    {
      readOffset := readOffset + numberOfBits;
    }

    // Moving the write cursor is right for later writes at a byte boundary; in mid-byte it is so exactly
    // when the bits cut off inside that byte are already zero.
    method SetWriteOffset(offset: nat)
      requires WellFormed() && BytesFor(offset) <= BytesFor(numberOfBitsAllocated)
      modifies this`numberOfBitsUsed
      ensures WellFormed() && numberOfBitsUsed == offset
      ensures Valid() <==> ZeroFrom(data[..], offset)
      ensures offset + 8 <= 8 * data.Length ==> (StoresAppend(data[..], offset) <==> ZeroFrom(data[..], offset))
      ensures offset % 8 == 0 ==> Valid()
      ensures offset <= old(numberOfBitsUsed) ==> Bits() == old(Bits())[..offset]
    {
      hide StoresAppend, ZeroFrom, Bit;
      if offset + 8 <= 8 * data.Length {
        StoresAppendIff(data[..], offset);
      }
      Boundary(data[..], offset);
      numberOfBitsUsed := offset;
    }

    // GetData() over GetNumberOfBytesUsed()
    method UsedBytes() returns (bytes: seq<byte>)
      requires Valid()
      ensures bytes == Pack(Bits())
    {
      hide Pack, TakeBits, ZeroFrom;
      PackUnique(data[..], Bits());
      bytes := data[..BytesFor(numberOfBitsUsed)];
    }

    method CopyData() returns (copy: array<byte>, numberOfBits: nat)
      requires Valid()
      ensures fresh(copy) && copy[..] == Pack(Bits()) && numberOfBits == |Bits()|
    {
      hide Pack, TakeBits, ZeroFrom;
      copy := new byte[BytesFor(numberOfBitsUsed)];
      var bytes := UsedBytes();
      CopyBytes(copy, 0, bytes);
      numberOfBits := numberOfBitsUsed;
    }
  }

  // The memcpy forms agree with WriteBits: whole bytes are their own payload, in either alignment, and
  // leave the tail clean.
  lemma WholePayload(used: nat, input: seq<byte>, rightAligned: bool)
    ensures Payload(input, 8 * |input|, rightAligned) == AllBits(input) &&
            TailOk(used, input, 8 * |input|, rightAligned)
    ensures input == [] ==> AllBits(input) == []
  {
    hide BitAt;
    LastByteFull(used, input, rightAligned);
  }

  lemma LastByteFull(used: nat, input: seq<byte>, rightAligned: bool)
    ensures TailOk(used, input, 8 * |input|, rightAligned)
  {
    var n := 8 * |input|;
    if n > 0 {
      assert (n - 1) / 8 == |input| - 1;
    }
  }

  // Copying a stream bit by bit from its start appends what WriteBits appends for its buffer.
  lemma StreamCopyIsWriteBits(source: BitStream, used: nat)
    requires source.Valid()
    ensures var buffer, n := source.data[..], source.numberOfBitsUsed;
            && Payload(buffer, n, false) == source.Bits() && TailOk(used, buffer, n, false)
            && Copied(n, n) == n && source.Bits()[0..n] == source.Bits()
  {
    hide BitAt;
    TailOkWhen(used, source.data[..], source.numberOfBitsUsed, false);
  }
}
