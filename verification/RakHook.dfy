/** The hook around the game's RPC handler, and frames made up by the caller. */
module RakHooks {
  import opened Sequences
  import opened Bytes
  import opened BitStreams
  import opened CompressedInts
  import opened NativeValues
  import opened RpcFrames

  // an unsigned count passed where an int is expected
  function AsInt(n: nat): int {
    if n < 0x8000_0000 then n else n - 0x1_0000_0000
  }

  lemma FetchedFromPrefix(s: seq<byte>, frame: seq<byte>, off: nat, n: nat)
    requires |frame| <= |s| && s[..|frame|] == frame && off + n <= 8 * |frame|
    ensures Fetched(s, off, n, false) == Fetched(frame, off, n, false)
  {
    hide ShiftLeft, ShiftRight;
    forall k | 0 <= k < |frame|
      ensures s[k] == frame[k]
    {
      assert s[k] == s[..|frame|][k];
    }
  }

  // the id and, when there is one, the payload
  method ReadId(incoming: BitStream) returns (ok: bool, id: byte)
    requires incoming.Valid()
    modifies incoming`readOffset
    ensures ok <==> 8 <= |old(incoming.Unread())|
    ensures ok ==> id == Pack(old(incoming.Unread())[..8])[0] && incoming.readOffset == old(incoming.readOffset) + 8
    ensures !ok ==> id == 0 && incoming.readOffset == old(incoming.readOffset)
  {
    hide TakeBits, ZeroFrom, ByteFrom;
    var buffer := new byte[1](_ => 0);
    ok := incoming.ReadValue(buffer, 0, 1);
    id := buffer[0];
  }

  // the bytes the callback gets to see
  method ReadPayload(incoming: BitStream, bitsData: nat) returns (ok: bool, payload: seq<byte>)
    requires incoming.Valid() && incoming.readOffset <= incoming.numberOfBitsUsed < 0x8000_0000 &&
             bitsData < 0x1_0000_0000
    modifies incoming`readOffset
    ensures ok <==> bitsData == 0 || incoming.numberOfBitsUsed - old(incoming.readOffset) >= bitsData
    ensures ok ==> payload == if bitsData == 0 then []
            else Fetched(incoming.data[..], old(incoming.readOffset), bitsData, false)
  {
    hide TakeBits, ZeroFrom, Pack, Fetched;
    if bitsData == 0 {
      var empty := new BitStream();
      assert Pack([]) == [] by {
        assert |Pack([])| == 0;
      }
      payload := empty.UsedBytes();
      return true, payload;
    }
    var unread := incoming.numberOfBitsUsed - incoming.readOffset;
    var input := new byte[BytesFor(unread)];
    BytesForMonotone(if bitsData <= unread then bitsData else unread, unread);
    ok := incoming.ReadBits(input, 0, AsInt(bitsData), false);
    if !ok {
      return false, [];
    }
    var callbackBs := new BitStream.FromBytes(input, BytesFor(bitsData), true);
    payload := callbackBs.UsedBytes();
    PackAll(input[..BytesFor(bitsData)]);
    assert payload == input[..BytesFor(bitsData)];
  }

  // the id, which stays 0 when it cannot be read, and the bit count
  method ReadHead(incoming: BitStream, bigEndian: bool, ghost frame: seq<byte>)
    returns (ok: bool, id: byte, bitsData: nat)
    requires incoming.Valid() && frame != [] && incoming.Bits() == AllBits(frame) &&
             incoming.readOffset == 8 * HeaderBytes(frame)
    modifies incoming`readOffset
    ensures ok <==> ParseHead(frame).Some?
    ensures ok ==>
              ParseHead(frame) == Some(Head(id, bitsData, incoming.readOffset)) &&
              incoming.readOffset <= incoming.numberOfBitsUsed
  {
    hide TakeBits, ZeroFrom, Pack, Decompress, FromLittleEndian;
    ghost var unread, offset := incoming.Unread(), incoming.readOffset;
    HeadRest(frame, unread, offset);
    var idRead;
    idRead, id := ReadId(incoming);
    assert idRead ==> incoming.Unread() == unread[8..];
    ok, bitsData := ReadCompressedNative(incoming, 4, bigEndian);
  }

  lemma HeadRest(frame: seq<byte>, unread: seq<bool>, offset: nat)
    requires frame != [] && offset == 8 * HeaderBytes(frame)
    requires unread == if offset <= 8 * |frame| then AllBits(frame)[offset..] else []
    ensures |unread| < 8 ==> Decompress(unread, 4, true).None? && ParseHead(frame).None?
    ensures |unread| >= 8 ==> HeaderBytes(frame) < |frame| && Pack(unread[..8])[0] == frame[HeaderBytes(frame)]
    ensures |unread| >= 8 ==> unread[8..] == AllBits(frame)[offset + 8..]
  {
    hide TakeBits, Pack, Decompress, FromLittleEndian, HeaderBytes;
    AllBitsLength(frame);
    if |unread| < 8 {
      CountTakesAByte(unread, 4);
    } else {
      hide ParseHead;
      IdByte(frame, HeaderBytes(frame));
      assert AllBits(frame)[offset..][..8] == AllBits(frame)[offset..offset + 8];
      assert AllBits(frame)[offset..][8..] == AllBits(frame)[offset + 8..];
    }
  }

  lemma IdByte(frame: seq<byte>, k: nat)
    requires k < |frame|
    ensures |AllBits(frame)| == 8 * |frame| && Pack(AllBits(frame)[8 * k..8 * k + 8]) == [frame[k]]
  {
    hide TakeBits, Pack;
    AlignedSlice(frame, 8 * |frame|, k, 1);
    assert frame[k..k + 1] == [frame[k]];
  }

  // the parsing half of the handler; the incoming stream is a copy that the other half writes over
  method ReadFrame(data: array<byte>, length: nat, bigEndian: bool)
    returns (ok: bool, incoming: BitStream, offset: nat, id: byte, payload: seq<byte>)
    requires 1 <= length <= data.Length && length < 0x1000_0000
    ensures fresh(incoming) && fresh(incoming.Footprint()) && incoming.Valid() &&
            incoming.Bits() == AllBits(data[..length])
    ensures offset == 8 * HeaderBytes(data[..length])
    ensures ok <==> ParseFrame(data[..length]).Some?
    ensures ok ==> id == ParseFrame(data[..length]).value.id && payload == ParseFrame(data[..length]).value.payload
  {
    hide TakeBits, ZeroFrom, Pack, Fetched, ParseHead;
    ghost var frame := data[..length];
    incoming := new BitStream.FromBytes(data, length, true);
    incoming.IgnoreBits(8);
    if data[0] == ID_TIMESTAMP {
      incoming.IgnoreBits(8 * (TIME_SIZE + 1));
    }
    offset := incoming.readOffset;
    var bitsData;
    ok, id, bitsData := ReadHead(incoming, bigEndian, frame);
    payload := [];
    if !ok {
      return;
    }
    WordSized(frame);
    SameBytes(incoming.data[..], frame, incoming.numberOfBitsUsed);
    if bitsData > 0 && incoming.readOffset + bitsData <= 8 * length {
      FetchedFromPrefix(incoming.data[..], frame, incoming.readOffset, bitsData);
    }
    ok, payload := ReadPayload(incoming, bitsData);
  }

  lemma WordSized(frame: seq<byte>)
    requires frame != [] && ParseHead(frame).Some?
    ensures ParseHead(frame).value.bits < 0x1_0000_0000
  {
    hide Decompress;
    var d := Decompress(AllBits(frame)[8 * HeaderBytes(frame) + 8..], 4, true).value;
    FromLittleEndianBack(d.value);
    assert Pow256(4) == 0x1_0000_0000;
  }

  lemma SameBytes(s: seq<byte>, frame: seq<byte>, used: nat)
    requires used == 8 * |frame| <= 8 * |s| && TakeBits(s, used) == AllBits(frame)
    ensures s[..|frame|] == frame
  {
    BytesOfPrefix(s, frame, AllBits(frame));
  }

  // the other half: id, count and payload written over the frame from the id on
  method Rebuild(incoming: BitStream, offset: nat, id: byte, payload: seq<byte>, bigEndian: bool,
                 ghost frame: seq<byte>)
    returns (forwarded: seq<byte>)
    requires incoming.Valid() && frame != [] && incoming.Bits() == AllBits(frame)
    requires offset == 8 * HeaderBytes(frame) <= 8 * |frame| && |payload| < 0x1000_0000
    modifies incoming.Footprint()
    ensures forwarded == BuildFrame(frame[..HeaderBytes(frame)], id, payload)
  {
    hide TakeBits, ZeroFrom, Pack, LittleEndian, Compress, TailOk, Payload, Padding;
    ghost var header := frame[..HeaderBytes(frame)];
    BytesForMonotone(offset, incoming.numberOfBitsUsed);
    incoming.SetWriteOffset(offset);
    HeaderBits(frame, incoming.Bits(), offset);
    incoming.WriteValue([id]);
    ghost var before := incoming.Bits();
    IdBits(header, id);
    var bitsData := 8 * |payload|;
    WriteCompressedNative(incoming, bitsData, 4, bigEndian);
    WholePayload(incoming.numberOfBitsUsed, payload, false);
    if bitsData != 0 {
      incoming.WriteBits(payload, AsInt(bitsData), false);
    }
    AppendAssoc(before, Compress(LittleEndian(bitsData, 4), true), AllBits(payload));
    assert incoming.Bits() == FrameBits(header, id, payload);
    forwarded := incoming.UsedBytes();
  }

  lemma HeaderBits(frame: seq<byte>, bits: seq<bool>, offset: nat)
    requires frame != [] && offset == 8 * HeaderBytes(frame) <= 8 * |frame| && bits == AllBits(frame)[..offset]
    ensures bits == AllBits(frame[..HeaderBytes(frame)])
  {
    hide BitAt;
  }

  lemma IdBits(header: seq<byte>, id: byte)
    ensures AllBits(header + [id]) == AllBits(header) + AllBits([id])
  {
    hide BitAt;
    forall p: nat | p < 8 * |header| + 8
      ensures Bit(header + [id], p) == if p < 8 * |header| then Bit(header, p) else Bit([id], p - 8 * |header|)
    {
    }
  }

  class RakHook {
    var initialized: bool
    // addresses of the peer and of the player the last frame came from; 0 is no peer yet
    var rakpeer: nat
    var gplayerid: nat

    constructor ()
      ensures !initialized && rakpeer == 0
    {
      initialized, rakpeer, gplayerid := false, 0, 0;
    }

    // The frame handed on to the original handler, or nothing when the event is dropped.
    method HandleRpcPacket(rp: nat, data: array<byte>, length: nat, playerid: nat,
                           callback: (byte, seq<bool>) -> Verdict, bigEndian: bool)
      returns (forwarded: Option<seq<byte>>)
      requires 1 <= length <= data.Length && length < 0x1000_0000
      requires forall id, bits :: callback(id, bits).Allow? ==> BytesFor(|callback(id, bits).bits|) < 0x1000_0000
      modifies this`rakpeer, this`gplayerid
      ensures rakpeer == rp && gplayerid == playerid
      ensures forwarded == Rewrite(data[..length], callback)
    {
      hide ParseFrame, BuildFrame, TakeBits, ZeroFrom, Delivered;
      rakpeer := rp;
      gplayerid := playerid;
      var ok, incoming, offset, id, payload := ReadFrame(data, length, bigEndian);
      if !ok {
        return None;
      }
      var verdict := callback(id, AllBits(payload));
      if verdict.Block? {
        return None;
      }
      var delivered := Delivered(verdict.bits, verdict.spare);
      var rebuilt := Rebuild(incoming, offset, verdict.id, delivered, bigEndian, data[..length]);
      forwarded := Some(rebuilt);
    }

    // The frame made for the original handler out of the bytes a stream holds.
    method EmulRpc(id: byte, rpcBs: BitStream, bigEndian: bool) returns (sent: Option<seq<byte>>)
      requires rpcBs.Valid() && BytesFor(rpcBs.numberOfBitsUsed) < 0x1000_0000
      ensures sent == if !initialized || rakpeer == 0 then None else Some(BuildFrame([20], id, Pack(rpcBs.Bits())))
    {
      hide TakeBits, ZeroFrom, Pack, LittleEndian, Compress, TailOk, Payload;
      if !initialized || rakpeer == 0 {
        return None;
      }
      var payload := rpcBs.UsedBytes();
      var bs := new BitStream();
      bs.WriteValue([ID_RPC]);
      bs.WriteValue([id]);
      IdBits([ID_RPC], id);
      ghost var before := bs.Bits();
      assert before == AllBits([ID_RPC] + [id]);
      WriteCompressedNative(bs, 8 * |payload|, 4, bigEndian);
      WholePayload(bs.numberOfBitsUsed, payload, false);
      bs.WriteBits(payload, AsInt(8 * |payload|), false);
      AppendAssoc(before, Compress(LittleEndian(8 * |payload|, 4), true), AllBits(payload));
      var frame := bs.UsedBytes();
      sent := Some(frame);
    }
  }

  // A made-up frame parses to exactly the id and the bytes it was made from, the empty payload included.
  lemma EmulatedFrame(id: byte, payload: seq<byte>)
    requires |payload| < 0x1000_0000
    ensures ParseFrame(BuildFrame([20], id, payload)) == Some(Frame(id, 8 * |payload|, payload))
  {
    hide ParseFrame, BuildFrame;
    ParseBack([20], id, payload);
  }
}
