/** RPC frames as functions on byte strings: a header, an id byte, a compressed bit count and the payload. */
module RpcFrames {
  import opened Bytes
  import opened BitStreams
  import opened CompressedInts
  import opened NativeValues

  const ID_RPC: byte := 20
  const ID_TIMESTAMP: byte := 40
  // sizeof(RakNetTime)
  const TIME_SIZE: nat := 4

  // the message number, behind a timestamp if there is one
  function HeaderBytes(data: seq<byte>): (n: nat)
    requires data != []
    ensures n >= 1
  {
    if data[0] == ID_TIMESTAMP then 1 + TIME_SIZE + 1 else 1
  }

  // an id, the number of payload bits, and where the payload starts
  datatype Head = Head(id: byte, bits: nat, from: nat)

  // an id, the number of payload bits, and the bytes they are delivered in
  datatype Frame = Frame(id: byte, bits: nat, payload: seq<byte>)

  // the id is read without a check; when it cannot be read, neither can the count
  function ParseHead(data: seq<byte>): (r: Option<Head>)
    requires data != []
    ensures r.Some? ==> HeaderBytes(data) < |data| && r.value.from <= 8 * |data|
  {
    var offset := 8 * HeaderBytes(data);
    if 8 * |data| < offset + 8 then
      None
    else
      match Decompress(AllBits(data)[offset + 8..], 4, true)
      case None => None
      case Some(d) => Some(Head(data[HeaderBytes(data)], FromLittleEndian(d.value), offset + 8 + d.consumed))
  }

  function ParseFrame(data: seq<byte>): (r: Option<Frame>)
    requires data != []
    ensures r.Some? ==> HeaderBytes(data) < |data| && |r.value.payload| == BytesFor(r.value.bits)
  {
    match ParseHead(data)
    case None => None
    case Some(h) => ParsePayload(data, h.id, h.bits, h.from)
  }

  function ParsePayload(data: seq<byte>, id: byte, bits: nat, from: nat): (r: Option<Frame>)
    requires from <= 8 * |data|
    ensures r.Some? ==> |r.value.payload| == BytesFor(r.value.bits)
  {
    if bits == 0 then Some(Frame(id, 0, []))
    else if from + bits > 8 * |data| then None
    else Some(Frame(id, bits, Fetched(data, from, bits, false)))
  }

  function FrameBits(header: seq<byte>, id: byte, payload: seq<byte>): seq<bool> {
    AllBits(header + [id]) + (Compress(LittleEndian(8 * |payload|, 4), true) + AllBits(payload))
  }

  function BuildFrame(header: seq<byte>, id: byte, payload: seq<byte>): (data: seq<byte>)
    ensures |header| + 1 <= |data|
  {
    FrameLength(header, id, payload);
    Pack(FrameBits(header, id, payload))
  }

  lemma FrameLength(header: seq<byte>, id: byte, payload: seq<byte>)
    ensures 8 * |header| + 8 <= |FrameBits(header, id, payload)|
  {
  }

  // What the callback makes of an event: the bits it leaves in the stream, and the spare bits its buffer
  // holds behind them (none for a clean tail)
  datatype Verdict = Block | Allow(id: byte, bits: seq<bool>, spare: seq<bool>)

  // the bytes in use of a stream with those bits, the last one filled up from the spare bits, then zeros
  function Delivered(bits: seq<bool>, spare: seq<bool>): (bytes: seq<byte>)
    ensures |bytes| == BytesFor(|bits|)
  {
    Pack(bits + spare)[..BytesFor(|bits|)]
  }

  lemma DeliveredBits(bits: seq<bool>, spare: seq<bool>)
    ensures TakeBits(Delivered(bits, spare), |bits|) == bits
    ensures spare == [] ==> Delivered(bits, spare) == Pack(bits)
    ensures forall p: nat :: |bits| <= p < 8 * BytesFor(|bits|) ==>
              Bit(Delivered(bits, spare), p) == (p - |bits| < |spare| && spare[p - |bits|])
  {
    hide Pack, BitAt;
    var all, n := Pack(bits + spare), |bits + spare|;
    PackBits(bits + spare);
    forall p: nat | p < 8 * BytesFor(|bits|)
      ensures Bit(Delivered(bits, spare), p) == (p < n && (bits + spare)[p])
    {
      assert p / 8 < BytesFor(|bits|);
      if p < n {
        assert Bit(all, p) == TakeBits(all, n)[p];
      } else {
        assert p < 8 * BytesFor(n) && !Bit(all, p);
      }
    }
    if spare == [] {
      assert bits + spare == bits;
    }
  }

  // what the hook forwards for a frame; the callback gets a stream of whole bytes
  function Rewrite(data: seq<byte>, callback: (byte, seq<bool>) -> Verdict): Option<seq<byte>>
    requires data != []
  {
    match ParseFrame(data)
    case None => None
    case Some(f) =>
      match callback(f.id, AllBits(f.payload))
      case Block => None
      case Allow(id, bits, spare) => Some(BuildFrame(data[..HeaderBytes(data)], id, Delivered(bits, spare)))
  }

  // Nothing is forwarded exactly when the frame is malformed or the callback blocks it.
  lemma Dropped(data: seq<byte>, callback: (byte, seq<bool>) -> Verdict)
    requires data != []
    ensures Rewrite(data, callback).None? <==>
            ParseFrame(data).None? ||
            callback(ParseFrame(data).value.id, AllBits(ParseFrame(data).value.payload)).Block?
  {
    hide ParseFrame, BuildFrame, Delivered;
  }

  // the edit that is forwarded
  function Edited(data: seq<byte>, callback: (byte, seq<bool>) -> Verdict): (verdict: Verdict)
    requires data != [] && Rewrite(data, callback).Some?
    ensures verdict.Allow?
  {
    var f := ParseFrame(data).value;
    callback(f.id, AllBits(f.payload))
  }

  // a buffer that holds a frame starts with its header and id
  lemma FrameStarts(header: seq<byte>, id: byte, payload: seq<byte>)
    ensures var data := BuildFrame(header, id, payload);
            data[..|header|] == header && data[|header|] == id
  {
    hide Pack, Compress, TakeBits, LittleEndian;
    var bits := FrameBits(header, id, payload);
    PackBits(bits);
    BytesOfPrefix(Pack(bits), header + [id], bits);
    assert (header + [id])[..|header|] == header;
  }

  lemma BytesOfPrefix(data: seq<byte>, start: seq<byte>, bits: seq<bool>)
    requires |bits| <= 8 * |data| && TakeBits(data, |bits|) == bits && AllBits(start) <= bits
    ensures |start| <= |data| && data[..|start|] == start
  {
    hide Pack, BitAt;
    assert AllBits(data[..|start|]) == AllBits(start);
    PackAll(data[..|start|]);
    PackAll(start);
  }

  // all the bits of a packed frame: what was packed, then zeros up to the byte boundary
  lemma PackedBits(bits: seq<bool>)
    ensures AllBits(Pack(bits)) == bits + Zeros(Padding(|bits|))
  {
    hide Pack, BitAt;
    PackBits(bits);
    TailBits(Pack(bits), |bits|);
  }

  // A built frame is the header, the id, the compressed number of payload bits, the payload, and clear bits up
  // to the byte boundary.
  lemma BuiltBits(header: seq<byte>, id: byte, payload: seq<byte>) returns (spare: seq<bool>)
    ensures AllBits(BuildFrame(header, id, payload)) ==
              AllBits(header + [id]) + (Compress(LittleEndian(8 * |payload|, 4), true) + (AllBits(payload) + spare))
    ensures |spare| < 8 && forall i :: 0 <= i < |spare| ==> !spare[i]
  {
    hide Pack, Compress, LittleEndian, AllBits;
    spare := Zeros(Padding(|FrameBits(header, id, payload)|));
    PackedBits(FrameBits(header, id, payload));
    var count, body := Compress(LittleEndian(8 * |payload|, 4), true), AllBits(payload);
    assert (AllBits(header + [id]) + (count + body)) + spare == AllBits(header + [id]) + (count + (body + spare));
  }

  lemma FrameParts(header: seq<byte>, id: byte, payload: seq<byte>)
    ensures var data, count, body := BuildFrame(header, id, payload), Compress(LittleEndian(8 * |payload|, 4), true),
            AllBits(payload);
            var rest := AllBits(data)[8 * |header| + 8..];
            && 8 * |header| + 8 + |count| + 8 * |payload| <= 8 * |data|
            && count <= rest && rest[..|count|] + rest[|count|..] == rest && |rest| == 8 * |data| - (8 * |header| + 8)
            && TakeBits(data, 8 * |header| + 8 + |count| + 8 * |payload|)[8 * |header| + 8 + |count|..] == body
  {
    hide Pack, Bit, Compress, LittleEndian;
    var bits := FrameBits(header, id, payload);
    var data, count, body := BuildFrame(header, id, payload), Compress(LittleEndian(8 * |payload|, 4), true),
      AllBits(payload);
    PackedBits(bits);
    PackBits(bits);
    assert bits == AllBits(header + [id]) + (count + body);
  }

  // A built frame parses back to exactly its id and its payload, whatever they are.
  lemma ParseBack(header: seq<byte>, id: byte, payload: seq<byte>)
    requires header != [] && |header| == HeaderBytes(header) && 8 * |payload| < 0x1_0000_0000
    ensures ParseFrame(BuildFrame(header, id, payload)) == Some(Frame(id, 8 * |payload|, payload))
  {
    hide Pack, TakeBits, Compress, Decompress, LittleEndian, FromLittleEndian, BuildFrame, Fetched;
    var data, count := BuildFrame(header, id, payload), Compress(LittleEndian(8 * |payload|, 4), true);
    FrameStarts(header, id, payload);
    FrameParts(header, id, payload);
    assert data[0] == data[..|header|][0];
    var rest := AllBits(data)[8 * |header| + 8..];
    assert rest == count + rest[|count|..];
    RoundTrip(LittleEndian(8 * |payload|, 4), true, rest[|count|..]);
    assert Pow256(4) == 0x1_0000_0000;
    LittleEndianBack(8 * |payload|, 4);
    var from := 8 * |header| + 8 + |count|;
    if payload != [] {
      FetchedWhole(data, from, 8 * |payload|, false);
      PackAll(payload);
    }
  }

  // Which frames are well formed: the id and the count can be read behind one byte, or behind six with a
  // timestamp, and as many bits follow as the count says. The payload starts with those bits.
  lemma ParsesExactly(data: seq<byte>)
    requires data != []
    ensures var at := if data[0] == 40 then 6 else 1;
            var rest := if at < |data| then AllBits(data)[8 * at + 8..] else [];
            var count := Decompress(rest, 4, true);
            && (ParseFrame(data).Some? <==>
                at < |data| && count.Some? && count.value.consumed + FromLittleEndian(count.value.value) <= |rest|)
            && (ParseFrame(data).Some? ==>
                var f := ParseFrame(data).value;
                && f.id == data[at] && f.bits == FromLittleEndian(count.value.value)
                && |f.payload| == BytesFor(f.bits)
                && TakeBits(f.payload, f.bits) == rest[count.value.consumed..count.value.consumed + f.bits])
  {
    hide TakeBits, Decompress, FromLittleEndian, Fetched;
    AllBitsLength(data);
    if ParseFrame(data).Some? {
      PayloadIsSlice(data);
      var at := if data[0] == 40 then 6 else 1;
      var c, n := Decompress(AllBits(data)[8 * at + 8..], 4, true).value.consumed, ParseFrame(data).value.bits;
      LaterSlice(AllBits(data), 8 * at + 8, c, n);
    }
  }

  lemma LaterSlice(all: seq<bool>, from: nat, c: nat, n: nat)
    requires from + c + n <= |all|
    ensures all[from..][c..c + n] == all[from + c..from + c + n]
  {
  }

  // Every frame made of a header, an id, a count of bits and those bits is well formed, whatever the id, the
  // count and the bits are and whatever follows them.
  lemma EveryCountParses(data: seq<byte>, header: seq<byte>, id: byte, body: seq<bool>, rest: seq<bool>)
    requires header != [] && |header| == (if header[0] == 40 then 6 else 1) && |body| < 0x1_0000_0000
    requires AllBits(data) ==
             AllBits(header + [id]) + (Compress(LittleEndian(|body|, 4), true) + (body + rest))
    ensures data != [] && ParseFrame(data).Some?
    ensures var f := ParseFrame(data).value;
            f.id == id && f.bits == |body| && |f.payload| == BytesFor(|body|) && TakeBits(f.payload, |body|) == body
  {
    hide TakeBits, AllBits, Compress, Decompress, LittleEndian, FromLittleEndian, ParseFrame, Pow256;
    var count := Compress(LittleEndian(|body|, 4), true);
    StartsWith(data, header, id, count + (body + rest));
    RoundTrip(LittleEndian(|body|, 4), true, body + rest);
    assert Pow256(4) == 0x1_0000_0000 by {
      FourBytes();
    }
    LittleEndianBack(|body|, 4);
    ParsesExactly(data);
    assert (count + (body + rest))[|count|..|count| + |body|] == body;
  }

  lemma StartsWith(data: seq<byte>, header: seq<byte>, id: byte, bits: seq<bool>)
    requires header != [] && AllBits(data) == AllBits(header + [id]) + bits
    ensures |header| < |data| && data[0] == header[0] && data[|header|] == id
    ensures AllBits(data)[8 * |header| + 8..] == bits && |AllBits(data)| == 8 * |data|
  {
    hide BitAt;
    var start := header + [id];
    AllBitsLength(data);
    AllBitsLength(start);
    assert TakeBits(data, |AllBits(data)|) == AllBits(data);
    BytesOfPrefix(data, start, AllBits(data));
    assert data[0] == start[0] && data[|header|] == start[|header|];
  }

  lemma FourBytes()
    ensures Pow256(4) == 0x1_0000_0000
  {
  }

  lemma HeaderKept(data: seq<byte>)
    requires data != [] && HeaderBytes(data) <= |data|
    ensures var header := data[..HeaderBytes(data)];
            header != [] && HeaderBytes(header) == |header| == HeaderBytes(data)
  {
  }

  // Whatever an allowed edit is, the forwarded frame keeps the bytes before the id, and parses to the
  // edited id and to a payload that starts with the edited bits and is rounded up to whole bytes.
  lemma ForwardedFrame(data: seq<byte>, callback: (byte, seq<bool>) -> Verdict)
    requires data != [] && ParseFrame(data).Some?
    ensures var f := ParseFrame(data).value;
            match callback(f.id, AllBits(f.payload))
            case Block => Rewrite(data, callback) == None
            case Allow(id, bits, spare) =>
              8 * BytesFor(|bits|) < 0x1_0000_0000 ==>
                var r, payload := Rewrite(data, callback), Delivered(bits, spare);
                && r.Some? && r.value != [] && HeaderBytes(r.value) == HeaderBytes(data) < |r.value|
                && r.value[..HeaderBytes(data)] == data[..HeaderBytes(data)]
                && ParseFrame(r.value) == Some(Frame(id, 8 * BytesFor(|bits|), payload))
                && TakeBits(payload, |bits|) == bits && (spare == [] ==> payload == Pack(bits))
  {
    hide ParseFrame, BuildFrame, Delivered;
    var f := ParseFrame(data).value;
    match callback(f.id, AllBits(f.payload))
    case Block =>
    case Allow(id, bits, spare) =>
      var header, payload := data[..HeaderBytes(data)], Delivered(bits, spare);
      HeaderKept(data);
      DeliveredBits(bits, spare);
      FrameStarts(header, id, payload);
      var built := BuildFrame(header, id, payload);
      assert built[0] == built[..|header|][0];
      if 8 * BytesFor(|bits|) < 0x1_0000_0000 {
        ParseBack(header, id, payload);
      }
  }

  // where the payload of a frame starts
  function PayloadStart(data: seq<byte>): (from: nat)
    requires data != [] && ParseFrame(data).Some?
    ensures from + ParseFrame(data).value.bits <= 8 * |data|
  {
    ParseHead(data).value.from
  }

  function Unchanged(): (byte, seq<bool>) -> Verdict {
    (id, bits) => Allow(id, bits, [])
  }

  lemma UnchangedDelivers(payload: seq<byte>)
    ensures Delivered(AllBits(payload), []) == payload && |AllBits(payload)| == 8 * |payload|
  {
    hide Pack, BitAt;
    PackAll(payload);
    DeliveredBits(AllBits(payload), []);
  }

  // Without an edit the payload bits are preserved: they are the first bits of the forwarded payload,
  // which is filled up to whole bytes.
  lemma Transparent(data: seq<byte>)
    requires data != [] && ParseFrame(data).Some? && 8 * BytesFor(ParseFrame(data).value.bits) < 0x1_0000_0000
    ensures var f, r, from := ParseFrame(data).value, Rewrite(data, Unchanged()), PayloadStart(data);
            && r.Some? && r.value != [] && ParseFrame(r.value) == Some(Frame(f.id, 8 * BytesFor(f.bits), f.payload))
            && TakeBits(f.payload, f.bits) == AllBits(data)[from..from + f.bits]
            && (f.bits % 8 == 0 ==> f.payload == Pack(AllBits(data)[from..from + f.bits]))
  {
    hide Delivered;
    UnchangedDelivers(ParseFrame(data).value.payload);
    ForwardedFrame(data, Unchanged());
    PayloadIsSlice(data);
  }

  lemma PayloadIsSlice(data: seq<byte>)
    requires data != [] && ParseFrame(data).Some?
    ensures var f, from := ParseFrame(data).value, PayloadStart(data);
            && TakeBits(f.payload, f.bits) == AllBits(data)[from..from + f.bits]
            && (f.bits % 8 == 0 ==> f.payload == Pack(AllBits(data)[from..from + f.bits]))
  {
    hide Pack, Bit, Fetched, Decompress, FromLittleEndian;
    var f, from := ParseFrame(data).value, PayloadStart(data);
    if f.bits > 0 {
      FetchedSlice(data, 8 * |data|, from, f.bits, false);
    } else {
      assert Pack([]) == [];
    }
  }

  // Whatever edit a frame has been through, rewriting it again without one gives the very same bytes.
  lemma Idempotent(data: seq<byte>, callback: (byte, seq<bool>) -> Verdict)
    requires data != [] && Rewrite(data, callback).Some?
    requires 8 * BytesFor(|Edited(data, callback).bits|) < 0x1_0000_0000
    ensures var r := Rewrite(data, callback).value;
            r != [] && Rewrite(r, Unchanged()) == Some(r)
  {
    hide ParseFrame, BuildFrame, Delivered;
    var verdict := Edited(data, callback);
    ForwardedFrame(data, callback);
    UnchangedDelivers(Delivered(verdict.bits, verdict.spare));
  }

  // a count takes at least eight bits, so where no id can be read no count can be read either
  lemma {:induction false} CountTakesAByte(bits: seq<bool>, k: nat)
    requires 1 <= k && |bits| < k + 4
    ensures Decompress(bits, k, true).None?
    decreases k
  {
    if k > 1 && |bits| >= 1 && bits[0] {
      CountTakesAByte(bits[1..], k - 1);
    }
  }
}
