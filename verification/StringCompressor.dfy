/** The string compressor: one coder for each language. */
module StringCompressors {
  import opened Sequences
  import opened Bytes
  import opened Growth
  import opened BitStreams
  import opened CompressedInts
  import opened NativeValues
  import opened HuffmanTrees
  import opened Codes
  import opened TreeNodes
  import opened CodeTables
  import opened TextCoding
  import opened StringCodec
  import opened HuffmanEncodingTrees

  // how often each byte value occurs
  ghost function Occurrences(input: seq<byte>, c: nat): nat {
    if input == [] then 0 else Occurrences(input[..|input| - 1], c) + if input[|input| - 1] as nat == c then 1 else 0
  }

  function Places(input: seq<byte>, c: nat): set<nat> {
    set i: nat | i < |input| && input[i] as nat == c
  }

  lemma {:induction false} OccurrencesAre(input: seq<byte>, c: nat)
    ensures Occurrences(input, c) == |Places(input, c)|
  {
    if input != [] {
      var before, last := input[..|input| - 1], |input| - 1;
      OccurrencesAre(before, c);
      if input[last] as nat == c {
        assert Places(input, c) == Places(before, c) + {last} && last !in Places(before, c);
      } else {
        assert Places(input, c) == Places(before, c);
      }
    }
  }

  ghost function FrequencyTable(input: seq<byte>): (table: seq<nat>)
    ensures |table| == 256
  {
    seq(256, c requires 0 <= c < 256 => Occurrences(input, c))
  }

  // the counting loop
  method CountBytes(input: seq<byte>) returns (frequencyTable: array<nat>)
    ensures fresh(frequencyTable) && frequencyTable[..] == FrequencyTable(input)
  {
    frequencyTable := new nat[256](_ => 0);
    for index := 0 to |input|
      invariant frequencyTable.Length == 256
      invariant forall c {:trigger frequencyTable[c]} :: 0 <= c < 256 ==>
                frequencyTable[c] == Occurrences(input[..index], c)
    {
      assert input[..index + 1][..index] == input[..index];
      frequencyTable[input[index] as nat] := frequencyTable[input[index] as nat] + 1;
    }
    assert input[..|input|] == input;
  }

  class StringCompressor {
    var huffmanEncodingTrees: map<int, HuffmanEncodingTree>

    // the coders and what they are made of
    ghost var repr: set<object>

    ghost predicate Holds(id: int)
      requires id in huffmanEncodingTrees
      reads this, repr
    {
      var h := huffmanEncodingTrees[id];
      h in repr && h.encodingTable in repr && h.TreeNodesHeld() <= repr && h.Valid() && h.shape.Some?
    }

    ghost predicate Valid()
      reads this, repr
    {
      && (forall id :: id in huffmanEncodingTrees ==> Holds(id))
      && (forall id, other :: id in huffmanEncodingTrees && other in huffmanEncodingTrees && id != other ==>
            Apart(huffmanEncodingTrees[id], huffmanEncodingTrees[other]))
    }

    // English is language 0 from the start
    constructor (englishCharacterFrequencies: array<nat>)
      requires englishCharacterFrequencies.Length == 256
      ensures Valid() && fresh(repr) && huffmanEncodingTrees.Keys == {0}
      ensures Language(0) == BuildTree(old(englishCharacterFrequencies[..]))
    {
      huffmanEncodingTrees := map[];
      repr := {};
      new;
      var huffmanEncodingTree := new HuffmanEncodingTree();
      huffmanEncodingTree.GenerateFromFrequencyTable(englishCharacterFrequencies);
      huffmanEncodingTrees := map[0 := huffmanEncodingTree];
      repr := {huffmanEncodingTree, huffmanEncodingTree.encodingTable} + huffmanEncodingTree.TreeNodesHeld();
    }

    ghost function Language(id: int): Tree
      requires id in huffmanEncodingTrees && Valid()
      reads this, repr
    {
      huffmanEncodingTrees[id].Tree()
    }

    ghost predicate ValidExcept(languageID: int)
      reads this, repr
    {
      && (forall id :: id in huffmanEncodingTrees && id != languageID ==> Holds(id))
      && (forall id, other | id in huffmanEncodingTrees && other in huffmanEncodingTrees ::
            id != other && id != languageID && other != languageID ==>
            Apart(huffmanEncodingTrees[id], huffmanEncodingTrees[other]))
    }

    lemma OthersHold(languageID: int)
      requires Valid()
      ensures ValidExcept(languageID)
      ensures languageID in huffmanEncodingTrees ==> Holds(languageID)
    {
    }

    // deletes the coder of a language
    method Forget(languageID: int)
      requires Valid() && languageID in huffmanEncodingTrees
      modifies repr
      ensures ValidExcept(languageID) && repr == old(repr) && huffmanEncodingTrees == old(huffmanEncodingTrees)
      ensures forall id :: id in huffmanEncodingTrees && id != languageID ==>
                huffmanEncodingTrees[id].shape == old(huffmanEncodingTrees[id].shape)
      ensures huffmanEncodingTrees[languageID].shape.None?
    {
      hide HuffmanEncodingTree.Valid;
      OthersHold(languageID);
      var _ := huffmanEncodingTrees[languageID].FreeMemory();
    }

    // Learns a language from a text; an old coder of the language is deleted first. With no text the
    // deleted coder stays in use: the compressor stays valid exactly when there is a text or no such coder.
    method GenerateTreeFromStrings(input: seq<byte>, languageID: int)
      requires Valid()
      modifies this, repr
      ensures Valid() <==> input != [] || languageID !in old(huffmanEncodingTrees)
      ensures fresh(repr - old(repr))
      ensures huffmanEncodingTrees.Keys == old(huffmanEncodingTrees.Keys) + if input == [] then {} else {languageID}
      ensures input != [] ==> Language(languageID) == BuildTree(FrequencyTable(input))
      ensures Valid() ==>
                forall id :: id in old(huffmanEncodingTrees) && (input == [] || id != languageID) ==>
                  Language(id) == old(Language(id))
    {
      hide HuffmanEncodingTree.Valid, ValidExcept, FrequencyTable, BuildTree;
      OthersHold(languageID);
      Shapes(languageID);
      if languageID in huffmanEncodingTrees {
        Forget(languageID);
      }
      if |input| == 0 {
        return;
      }
      var huffmanEncodingTree := NewCoder(input);
      NewIsApart(languageID, huffmanEncodingTree);
      Install(languageID, huffmanEncodingTree);
    }

    lemma Shapes(languageID: int)
      requires ValidExcept(languageID)
      ensures forall id :: id in huffmanEncodingTrees && id != languageID ==> huffmanEncodingTrees[id].shape.Some?
    {
      hide HuffmanEncodingTree.Valid;
    }

    lemma NewIsApart(languageID: int, h: HuffmanEncodingTree)
      requires ValidExcept(languageID) && h !in repr && h.encodingTable !in repr && h.TreeNodesHeld() !! repr
      ensures forall id :: id in huffmanEncodingTrees && id != languageID ==> Apart(huffmanEncodingTrees[id], h)
    {
      hide HuffmanEncodingTree.Valid;
      forall id | id in huffmanEncodingTrees && id != languageID
        ensures Apart(huffmanEncodingTrees[id], h)
      {
        assert Holds(id);
      }
    }

    static method NewCoder(input: seq<byte>) returns (h: HuffmanEncodingTree)
      ensures fresh(h) && fresh(h.encodingTable) && fresh(h.TreeNodesHeld()) && h.Valid() && h.shape.Some?
      ensures h.Tree() == BuildTree(FrequencyTable(input))
    {
      hide FrequencyTable, BuildTree;
      var frequencyTable := CountBytes(input);
      h := new HuffmanEncodingTree();
      h.GenerateFromFrequencyTable(frequencyTable);
    }

    method Install(languageID: int, h: HuffmanEncodingTree)
      requires ValidExcept(languageID) && h.Valid() && h.shape.Some?
      requires forall id :: id in huffmanEncodingTrees && id != languageID ==> Apart(huffmanEncodingTrees[id], h)
      modifies this
      ensures Valid() && huffmanEncodingTrees == old(huffmanEncodingTrees)[languageID := h]
      ensures repr == old(repr) + {h, h.encodingTable} + h.TreeNodesHeld()
    {
      hide HuffmanEncodingTree.Valid;
      huffmanEncodingTrees := huffmanEncodingTrees[languageID := h];
      repr := repr + {h, h.encodingTable} + h.TreeNodesHeld();
    }

    // No coder for the language: nothing is written. No string: a length of 0.
    method EncodeString(input: Option<seq<byte>>, maxCharsToWrite: int, output: BitStream, languageID: int,
                        bigEndian: bool)
      requires Valid() && output.Valid() && output.Footprint() !! repr
      requires input.Some? ==> 0 in input.value
      modifies output.Footprint()
      ensures output.Valid() && fresh(output.Footprint() - old(output.Footprint())) &&
              output.readOffset == old(output.readOffset)
      ensures languageID !in huffmanEncodingTrees ==> output.Bits() == old(output.Bits())
      ensures languageID in huffmanEncodingTrees ==> Alphabet(Language(languageID))
      ensures languageID in huffmanEncodingTrees && input.None? ==>
              output.Bits() == old(output.Bits()) + Compress(LittleEndian(0, 2), true)
      ensures languageID in huffmanEncodingTrees && input.Some? ==>
                var s, n := input.value, StringLength(input.value);
                var kept := if maxCharsToWrite <= 0 || n < maxCharsToWrite then n else maxCharsToWrite - 1;
                output.Bits() == old(output.Bits()) + Record(Language(languageID), s[..kept])
    {
      hide HuffmanEncodingTree.Valid, Record, StringLength, Compress, LittleEndian, TakeBits, ZeroFrom, Erase, Alphabet;
      if languageID !in huffmanEncodingTrees {
        return;
      }
      var huffmanEncodingTree := huffmanEncodingTrees[languageID];
      TreeHasAlphabet(huffmanEncodingTree);
      if input.None? {
        WriteCompressedNative(output, 0, 2, bigEndian);
        return;
      }
      var s := input.value;
      var charsToWrite;
      if maxCharsToWrite <= 0 || StringLength(s) < maxCharsToWrite {
        charsToWrite := StringLength(s);
      } else {
        charsToWrite := maxCharsToWrite - 1;
      }
      WriteRecord(huffmanEncodingTree, s[..charsToWrite], output, bigEndian);
    }

    static method WriteRecord(huffmanEncodingTree: HuffmanEncodingTree, text: seq<byte>, output: BitStream,
                              bigEndian: bool)
      requires huffmanEncodingTree.Valid() && huffmanEncodingTree.shape.Some?
      requires output.Valid() && huffmanEncodingTree.encodingTable !in output.Footprint()
      modifies output.Footprint()
      ensures output.Valid() && fresh(output.Footprint() - old(output.Footprint())) &&
              output.readOffset == old(output.readOffset)
      ensures Alphabet(huffmanEncodingTree.Tree())
      ensures output.Bits() == old(output.Bits()) + Record(huffmanEncodingTree.Tree(), text)
    {
      hide HuffmanEncodingTree.Valid, EncodedText, Compress, LittleEndian, TakeBits, ZeroFrom, Payload, TailOk,
        Alphabet, Erase, Nodes,
        BytesFor, GrowBy, Amortised, Record;
      huffmanEncodingTree.HeldAllocated();
      ghost var tree, before := huffmanEncodingTree.Tree(), output.Bits();
      var encodedBitStream := new BitStream();
      huffmanEncodingTree.EncodeArray(text, encodedBitStream);
      assert encodedBitStream.Bits() == EncodedText(tree, 0, text);
      WholeText(huffmanEncodingTree, text);
      var stringBitLength := encodedBitStream.numberOfBitsUsed % 65536;
      WriteCompressedNative(output, stringBitLength, 2, bigEndian);
      StoredPart(encodedBitStream, stringBitLength, output.numberOfBitsUsed);
      output.WriteBits(encodedBitStream.data[..], stringBitLength);
      RecordParts(tree, text, before);
      assert huffmanEncodingTree.Tree() == tree;
    }

    // The buffer starts as an empty string, and stays one when the record cannot be read.
    method DecodeString(output: array<byte>, maxCharsToWrite: nat, input: BitStream, languageID: int, bigEndian: bool)
      returns (ok: bool)
      requires Valid() && input.Valid() && input.Footprint() !! repr && output !in repr
      requires 1 <= maxCharsToWrite <= output.Length && output !in input.Footprint()
      modifies input`readOffset, output
      ensures languageID !in huffmanEncodingTrees ==>
              !ok && output[..] == old(output[..]) && input.readOffset == old(input.readOffset)
      ensures languageID in huffmanEncodingTrees ==>
                Language(languageID).Node? &&
                Received(ok, input.readOffset - old(input.readOffset), output[..], old(output[..]), maxCharsToWrite,
                         ReadRecord(Language(languageID), old(input.Unread())))
      // the same in the terms of the bits that are there
      ensures languageID in huffmanEncodingTrees ==>
                var t, bits := Language(languageID), old(input.Unread());
                var moved := input.readOffset - old(input.readOffset);
                var count := Decompress(bits, 2, true);
                if count.None? then
                  !ok && moved == Taken(bits, 2) && output[..] == old(output[..])[0 := 0]
                else
                  var from, n := count.value.consumed, FromLittleEndian(count.value.value);
                  if from + n > |bits| then
                    !ok && moved == from && output[..] == old(output[..])[0 := 0]
                  else
                    var symbols := Decode(t, t, bits[from..from + n]).output;
                    var k := if |symbols| < maxCharsToWrite then |symbols| else maxCharsToWrite - 1;
                    && ok && moved == from + n && k < output.Length
                    && output[..k] == Characters(symbols[..k]) && output[k] == 0
                    && output[k + 1..] == old(output[k + 1..])
    {
      hide HuffmanEncodingTree.Valid, Decompress, Taken, TakeBits, ZeroFrom, FromLittleEndian, Decode, Characters,
        Amortised;
      if languageID !in huffmanEncodingTrees {
        return false;
      }
      ok := ReadText(huffmanEncodingTrees[languageID], output, maxCharsToWrite, input, bigEndian);
    }

    // A string written at any offset of a stream and read back from there, the two hosts having any byte
    // order: the cursor ends behind the record, and the buffer holds the text, cut to both limits and
    // terminated, exactly when those characters survive the 16-bit length.
    method ThroughStream(s: seq<byte>, encodeLimit: int, output: array<byte>, decodeLimit: nat, bs: BitStream,
                         languageID: int, writerBigEndian: bool, readerBigEndian: bool)
      returns (ok: bool)
      requires Valid() && bs.Valid() && bs.Footprint() !! repr && output !in repr && output !in bs.Footprint()
      requires languageID in huffmanEncodingTrees && 0 in s && 1 <= decodeLimit <= output.Length
      modifies bs.Footprint(), output
      ensures Alphabet(Language(languageID)) && Language(languageID) == old(Language(languageID))
      ensures bs.Valid() && bs.Bits() == old(bs.Bits()) + Record(Language(languageID), Cut(s, encodeLimit))
      ensures var length := StringLength(s);
              Cut(s, encodeLimit) == s[..if encodeLimit <= 0 || length < encodeLimit then length else encodeLimit - 1]
      ensures ok && bs.readOffset == bs.numberOfBitsUsed
      ensures var t, text := Language(languageID), Cut(s, encodeLimit);
              var n := if |text| < decodeLimit then |text| else decodeLimit - 1;
              && n < output.Length
              && (output[..n] == text[..n] && output[n] == 0 <==> Survives(t, text, n))
              && (|EncodedText(t, 0, text)| <= 65535 ==> Survives(t, text, n))
    {
      hide HuffmanEncodingTree.Valid, Record, Alphabet, TakeBits, ZeroFrom, Erase, ReadRecord, Survives, EncodedText,
        Terminated, StringLength, Holds, Amortised, Decompress, Taken, FromLittleEndian, Decode, Characters;
      Learnt(languageID);
      var start := bs.numberOfBitsUsed;
      ghost var before, was, t, text := bs.Bits(), output[..], Language(languageID), Cut(s, encodeLimit);
      EncodeString(Some(s), encodeLimit, bs, languageID, writerBigEndian);
      FromStart(before, Record(t, text));
      bs.readOffset := start;
      ok := DecodeString(output, decodeLimit, bs, languageID, readerBigEndian);
      CutHasNoEnd(s, encodeLimit);
      StringRoundTrip(t, text, [], output[..], was, decodeLimit);
    }

    lemma Learnt(languageID: int)
      requires Valid() && languageID in huffmanEncodingTrees
      ensures Alphabet(Language(languageID)) && Complete(Language(languageID))
    {
      hide HuffmanEncodingTree.Valid, Alphabet, Complete;
      TreeIsComplete(huffmanEncodingTrees[languageID]);
      TreeHasAlphabet(huffmanEncodingTrees[languageID]);
    }

    static method ReadText(huffmanEncodingTree: HuffmanEncodingTree, output: array<byte>, maxCharsToWrite: nat,
                           input: BitStream, bigEndian: bool)
      returns (ok: bool)
      requires huffmanEncodingTree.Valid() && huffmanEncodingTree.shape.Some? && input.Valid()
      requires 1 <= maxCharsToWrite <= output.Length && output !in input.Footprint() &&
               (output as object) != huffmanEncodingTree.encodingTable
      modifies input`readOffset, output
      ensures huffmanEncodingTree.Tree().Node?
      ensures Received(ok, input.readOffset - old(input.readOffset), output[..], old(output[..]), maxCharsToWrite,
                       ReadRecord(huffmanEncodingTree.Tree(), old(input.Unread())))
    {
      hide HuffmanEncodingTree.Valid, Decompress, Taken, TakeBits, ZeroFrom, FromLittleEndian, Decode, Stored,
        Terminated, BytesFor, Amortised;
      huffmanEncodingTree.HeldAllocated();
      RootIsNode(huffmanEncodingTree);
      ghost var was, bits, from := output[..], input.Unread(), input.readOffset;
      NothingToRead(bits);
      output[0] := 0;
      var stringBitLength;
      ok, stringBitLength := ReadCompressedNative(input, 2, bigEndian);
      if !ok {
        return;
      }
      if input.numberOfBitsUsed - input.readOffset < stringBitLength {
        return false;
      }
      ghost var consumed := input.readOffset - from;
      NextBits(input.Bits(), from, consumed, stringBitLength);
      var bytesInStream := huffmanEncodingTree.DecodeArray(input, stringBitLength, maxCharsToWrite, output);
      ghost var t := huffmanEncodingTree.Tree();
      Finish(output[..], was, Decode(t, t, bits[consumed..consumed + stringBitLength]).output, maxCharsToWrite);
      if bytesInStream < maxCharsToWrite {
        output[bytesInStream] := 0;
      } else {
        output[maxCharsToWrite - 1] := 0;
      }
    }
  }

  // the string up to its terminator, cut to the limit of the writer
  function Cut(s: seq<byte>, encodeLimit: int): seq<byte>
    requires 0 in s
  {
    s[..Kept(StringLength(s), encodeLimit)]
  }

  lemma CutHasNoEnd(s: seq<byte>, encodeLimit: int)
    requires 0 in s
    ensures 0 !in Cut(s, encodeLimit)
  {
    hide StringLength, Kept;
    var text, n := s[..StringLength(s)], Kept(StringLength(s), encodeLimit);
    assert forall i :: 0 <= i < n ==> s[i] == text[i] && text[i] in text;
  }

  // how a read ends for each finding: its result, how far the cursor went, and the buffer
  ghost predicate Received(ok: bool, moved: int, now: seq<byte>, was: seq<byte>, maxCharsToWrite: nat, reading: Reading)
    requires |was| > 0
  {
    match reading
    case NoLength(consumed) => !ok && moved == consumed && now == was[0 := 0]
    case TooShort(consumed) => !ok && moved == consumed && now == was[0 := 0]
    case Text(symbols, consumed) => ok && moved == consumed && Terminated(now, was, symbols, maxCharsToWrite)
  }

  lemma TreeHasAlphabet(h: HuffmanEncodingTree)
    requires h.Valid() && h.shape.Some?
    ensures Alphabet(h.Tree())
  {
  }

  lemma TreeIsComplete(h: HuffmanEncodingTree)
    requires h.Valid() && h.shape.Some?
    ensures Complete(h.Tree())
  {
  }

  lemma RootIsNode(h: HuffmanEncodingTree)
    requires h.Valid() && h.shape.Some?
    ensures h.Tree().Node?
  {
  }

  lemma NothingToRead(bits: seq<bool>)
    ensures bits == [] ==> Decompress(bits, 2, true).None?
  {
  }

  lemma NextBits(all: seq<bool>, from: nat, consumed: nat, n: nat)
    requires from + consumed + n <= |all|
    ensures all[from + consumed..][..n] == all[from..][consumed..consumed + n]
  {
  }

  lemma Finish(now: seq<byte>, was: seq<byte>, symbols: seq<nat>, maxCharsToWrite: nat)
    requires 1 <= maxCharsToWrite <= |was| && Stored(now, was[0 := 0], symbols, maxCharsToWrite)
    ensures var k := if |symbols| < maxCharsToWrite then |symbols| else maxCharsToWrite - 1;
            Terminated(now[k := 0], was, symbols, maxCharsToWrite)
  {
    hide Character;
  }

  lemma WholeText(h: HuffmanEncodingTree, text: seq<byte>)
    requires h.Valid() && h.shape.Some?
    ensures Alphabet(h.Tree()) && |EncodedText(h.Tree(), 0, text)| % 65536 % 8 == 0
  {
    hide EncodedText, Alphabet, Complete, HuffmanEncodingTree.Valid;
    TreeIsComplete(h);
    TreeHasAlphabet(h);
    PaddedRoundTrip(h.Tree(), 0, text);
    CutWholeBytes(|EncodedText(h.Tree(), 0, text)|);
  }

  lemma CutWholeBytes(n: nat)
    requires n % 8 == 0
    ensures n % 65536 % 8 == 0
  {
    assert n == 65536 * (n / 65536) + n % 65536;
  }

  lemma RecordParts(t: Tree, text: seq<byte>, before: seq<bool>)
    requires Alphabet(t)
    ensures var body := EncodedText(t, 0, text);
            before + Record(t, text) ==
            before + Compress(LittleEndian(|body| % 65536, 2), true) + body[..|body| % 65536]
  {
    hide EncodedText, Compress, LittleEndian, Alphabet;
    var body := EncodedText(t, 0, text);
    AppendAssoc(before, Compress(LittleEndian(|body| % 65536, 2), true), body[..|body| % 65536]);
  }

  lemma StoredPart(bs: BitStream, n: nat, used: nat)
    requires bs.WellFormed() && n <= bs.numberOfBitsUsed && n % 8 == 0
    ensures n <= 8 * bs.data.Length && Payload(bs.data[..], n, true) == bs.Bits()[..n] &&
            TailOk(used, bs.data[..], n, true)
  {
    hide TakeBits, TailOk;
    TakeFewer(bs.data[..], bs.numberOfBitsUsed, n);
    TailOkWhen(used, bs.data[..], n, true);
  }

  // two coders share nothing
  ghost predicate Apart(a: HuffmanEncodingTree, b: HuffmanEncodingTree)
    reads a, b
  {
    a != b && a.encodingTable != b.encodingTable && a.TreeNodesHeld() !! b.TreeNodesHeld()
  }
}
