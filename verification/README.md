# RakHook / RakNet serialisation, modelled in Dafny

The project models the vendored RakNet serialisation stack and RakHook's RPC frame rewriter, and
proves what each layer promises to the one above it.

* **Bit stream** (`Bytes`, `Binary`, `Growth`, `BitStreams`, `CompressedInts`, `CompressedNumbers`,
  `NativeValues`, `Rounding`, `CompressedFloats`, `Scripts`, `StreamRuns`). A growing byte buffer with a
  bit-level write cursor and a bit-level read cursor. The class `BitStream` has the fields of the
  original; its meaning is the bit string `Bits()` and the read offset. `Binary` and `CompressedNumbers`
  say what raw and compressed values are as binary numbers. Every write is proved to append exactly its bits and every read to return exactly the
  slice at the cursor, at every offset. Later writes OR into the last partial byte, so the invariant
  `Valid()` says that the bits past the write cursor in that byte are zero. Two ghost counters record
  the bytes that growth copies and the most bytes ever needed; every write states what it does to them,
  and `StreamRuns` bounds the copies over any run of writes and resets.
* **Huffman coder** (`HuffmanTrees`, `Kraft`, `Optimality`, `DepthBound`, `Codes`, `LearntTrees`,
  `WeightOverflow` on values; `TreeNodes`, `TreeBuilding`, `CodeTables`, `TextCoding`,
  `HuffmanEncodingTrees` on the heap). Tree building is a function on weighted trees, about which
  optimality, the depth bound and the coding theorems are proved; the heap code with its parent
  pointers, sorted pointer list and encoding table is proved to compute that function. A ghost flag on
  every heap node says whether it is still live; only live nodes are looked at, linked or deleted.
* **String codec** (`StringCodec`, `StringCompressors`). The record of a string is a compressed 16-bit
  bit count followed by that many bits of the encoded text.
* **RPC frames** (`RpcFrames`, `RakHooks`). Parsing a frame, letting a callback edit it, and writing it
  back over the same stream; and frames made up by the caller.
* **Containers** (`Sequences`, `LinkedLists`, `LinkedSort`, `Queues`, `Lists`, `OrderedLists`, `Maps`).
  The circular list with a cursor and its mergesort, the ring-buffer queue, the array list, the
  binary-searched ordered list and the map with its one-entry search cache.

Bytes are 8-bit vectors, bit strings are `seq<bool>` with the most significant bit of a byte first,
symbols and weights are natural numbers with the 32-bit wrap-around of weights written out, and
addresses are natural numbers with 0 for null. Floating point numbers are reals, and every operation on
them is rounded once, to the nearest number of its format and to the even one halfway between two, as
IEEE 754 has it (`Rounding`). The endianness of the host is a parameter of every
operation on native values.

Seven findings, where the code or its documentation does not keep the natural property:

* The stored length of a string is cut to 16 bits. A string comes back exactly when the wanted
  characters survive that cut (`StringCodec.StringRoundTrip`, and over the stream
  `StringCompressors.StringCompressor.ThroughStream`); 65536 equal characters come back as nothing
  (`StringCodec.LongStringIsLost`).
* A learnt tree is documented as optimal for its text. Learnt from a single byte it spends two bits or
  more on it, where another complete tree spends one (`LearntTrees.SingleByteLoses`). In general it is
  optimal for the counts with 0 raised to 1, which is optimality for the text itself up to the codewords
  of bytes that do not occur (`LearntTrees.LearntIsOptimal`). That every byte occurs is therefore
  sufficient (`LearntTrees.FullTextIsShortest`); it is not claimed to be necessary.
* Weights are 32-bit words. With every frequency at 2^31 the tree is a chain with a codeword of 255 bits,
  and it is not optimal (`WeightOverflow.OverflowIsDeep`, `WeightOverflow.OverflowIsNotOptimal`). The
  tree is optimal whenever no inner node below the root wraps around, in particular when the sum of the
  weights is below 2^32 (`Optimality.Optimal`, `Optimality.NoOverflowIsEnough`). The bound on the sum is
  sufficient and not necessary, since a wrap at the root alone does no harm
  (`WeightOverflow.BoundIsNotNecessary`).
* `SetNew` on a key that is there caches the refusal as if it were an index; the cache stays right
  exactly when the key is new (`Maps.Map.SetNew`).
* After `SetWriteOffset` every store of up to eight bits appends exactly those bits if and only if no bit
  is set between the offset and the next byte boundary (`Bytes.StoresAppendIff`), in particular at every
  byte boundary; cut after four of eight set bits, four clear bits come out set
  (`BitStreams.CutInMidByte`).
* Concatenating onto an empty list leaves the argument in it twice
  (`LinkedLists.CircularLinkedList.Concatenate`); the sort never does so (`LinkedSort.MergeBoth`).
* The range of the compressed double is documented to include 1. From 1 - 2^-53 on the sum with 1 rounds to
  2, and the scaled value does not fit its 32 bits: neither for 1 nor for the largest double below it
  (`CompressedFloats.OneDoesNotFit`). Exactly the doubles up to 1 - 2^-52 fit
  (`CompressedFloats.DoubleFits`, `CompressedFloats.DoublesThatFit`).

`dafny verify dfyconfig.toml` checks the whole project.

## Model

| member | source | states |
|---|---|---|
| Bytes.PutByteBits | src/RakNet/BitStream.cpp:358-391 | storing a byte by the write loop's shifts and ORs appends exactly its first n bits at any offset, and touches no earlier bit |
| Bytes.PutByteTail | src/RakNet/BitStream.cpp:358-391 | the tail after such a store is clean exactly when the byte has no set bit past the n that fall into the same stream byte |
| Bytes.StoresAppendIff | src/RakNet/BitStream.cpp:358-391 | with room for a byte, every store of 1 to 8 bits at a position appends exactly those bits if and only if no bit is set between the position and the next byte boundary |
| Bytes.GetByteBit | src/RakNet/BitStream.cpp:478-509 | a byte fetched by the read loop's shifts holds the n stream bits from the cursor on, most significant first |
| Bytes.FetchedSlice | src/RakNet/BitStream.cpp:464-512 | what a read of n bits stores, with the last byte moved to the left again if it is right-aligned, is the slice of the bit string at the cursor; whole bytes are fetched exactly |
| Binary.FetchedNumber | src/RakNet/BitStream.cpp:464-512 | in a right-aligned read every byte, the partial last one included, is as a number the bits of its part of the slice: nothing stands above them |
| Binary.FetchedSpare | src/RakNet/BitStream.cpp:464-512 | in a left-aligned read the bits behind the slice in the last byte are exactly those that followed in the buffer byte the shifts took in, or zeros |
| Binary.RightAlignedPayload | src/RakNet/BitStream.cpp:358-391 | a right-aligned write of n bits takes the whole bytes and the last n % 8 binary digits of the partial byte |
| Binary.OneByte | src/RakNet/BitStream.cpp:358-391 | the bits of a byte are its eight binary digits, the highest first |
| Bytes.PackUnique | src/RakNet/BitStream.cpp:696-705 | with a clean tail the bytes in use are determined by the bits |
| BitStreams.BitStream.constructor | src/RakNet/BitStream.cpp:59-73 | an empty valid stream over the stack block of 2048 bits |
| BitStreams.BitStream.WithCapacity | src/RakNet/BitStream.cpp:75-94 | an empty valid stream over the stack block for up to 256 bytes, else over a block of the asked size |
| BitStreams.BitStream.FromBytes | src/RakNet/BitStream.cpp:96-126 | a stream that holds exactly the bits of the given bytes: over the array itself, or over the stack block or a fresh block when copying |
| BitStreams.BitStream.AddBitsAndReallocate | src/RakNet/BitStream.cpp:591-654 | growth keeps every bit and both cursors and makes room for the bits asked for: the capacity becomes twice the bits needed when they take more bytes than there are, and otherwise the larger of the two; all bytes of the old block are copied when it is moved, and none when it stays inside the stream |
| Growth.CopiesBounded | src/RakNet/BitStream.cpp:591-654 | over any sequence of calls for room, from any state, the bytes that growth copies are fewer than twice the most bytes asked for |
| StreamRuns.Run | src/RakNet/BitStream.cpp:143-654 | the same for the stream itself: over any run of writes, of items, of other streams and of itself, and resets, the counted copies stay below twice the most bytes a call of the run asked for |
| BitStreams.BitStream.WriteBits | src/RakNet/BitStream.cpp:347-392 | appends exactly the bits asked for, at every offset, length and alignment; the tail stays clean exactly when the input has no stray bit in the last byte written |
| BitStreams.TailOkWhen | src/RakNet/BitStream.cpp:347-392 | the tail stays clean for right-aligned input, for left-aligned input with a clean tail, and whenever the write ends on a byte boundary |
| BitStreams.BitStream.Write0 | src/RakNet/BitStream.cpp:257-266 | appends one clear bit |
| BitStreams.BitStream.Write1 | src/RakNet/BitStream.cpp:269-284 | appends one set bit |
| BitStreams.BitStream.WriteBool | include/RakNet/BitStream.h:646-652 | appends the flag as one bit |
| BitStreams.BitStream.WriteValue | include/RakNet/BitStream.h:618-640 | appends all bits of a value that lies in stream order |
| BitStreams.BitStream.WriteBytes | src/RakNet/BitStream.cpp:167-182 | the memcpy form and the bit form both append all bits of the bytes |
| BitStreams.BitStream.WriteStream | src/RakNet/BitStream.cpp:189-221 | appends the unread bits of another stream, as many as asked for and there are, and moves its cursor by that many |
| BitStreams.BitStream.WriteOwn | src/RakNet/BitStream.cpp:189-221 | with the stream itself as the source, what is appended counts as unread at once: the bits appended are the unread ones over and over, with their number as the period, until the count is met |
| BitStreams.WholePayload | src/RakNet/BitStream.cpp:167-182 | whole bytes written by WriteBits, in either alignment, are the same bits as those copied by memcpy |
| BitStreams.StreamCopyIsWriteBits | src/RakNet/BitStream.cpp:189-221 | copying a whole stream bit by bit appends the bits that WriteBits appends for its buffer, left aligned |
| BitStreams.BitStream.ReadBit | src/RakNet/BitStream.cpp:287-292 | the bit under the cursor, which moves by one |
| BitStreams.BitStream.ReadBool | include/RakNet/BitStream.h:854-865 | succeeds exactly when a bit is left; indexes with the old offset |
| BitStreams.BitStream.ReadBits | src/RakNet/BitStream.cpp:464-512 | succeeds exactly when that many bits are left; stores exactly the fetched bytes, each of which is the number its bits say when they are right-aligned, and nothing else; a failed read changes nothing |
| BitStreams.BitStream.ReadBytes | src/RakNet/BitStream.cpp:224-242 | the memcpy form and the bit form store the same bytes; asking for no bytes fails off a byte boundary |
| BitStreams.BitStream.WriteCompressed | src/RakNet/BitStream.cpp:402-459 | the loop over the high bytes appends the byte-eliding code of the value, which `CompressedNumbers` gives in numbers |
| BitStreams.BitStream.ReadCompressed | src/RakNet/BitStream.cpp:515-588 | the reading loop succeeds exactly when the bits decode, and stores and consumes what they decode to (in numbers: `CompressedNumbers`); on failure the cursor is behind exactly the bits `CompressedInts.Taken` counts |
| BitStreams.BitStream.AlignWriteToByteBoundary | src/RakNet/BitStream.cpp:333-337 | appends fewer than eight zeros, up to the byte boundary |
| BitStreams.BitStream.AlignReadToByteBoundary | src/RakNet/BitStream.cpp:340-344 | the cursor goes on by less than eight, to the byte boundary |
| BitStreams.BitStream.WriteAlignedBytes | src/RakNet/BitStream.cpp:295-306 | padding zeros, then all bits of the bytes, if any |
| BitStreams.BitStream.ReadAlignedBytes | src/RakNet/BitStream.cpp:309-330 | the bytes from the next byte boundary on, exactly when they are all there; on failure the cursor has been aligned, unless no bytes were asked for, and the buffer is untouched |
| BitStreams.BitStream.Reset | src/RakNet/BitStream.cpp:143-165 | an empty valid stream, whatever the buffer still holds |
| BitStreams.BitStream.IgnoreBits | src/RakNet/BitStream.cpp:708-711 | the read cursor moves on, or back by a negative count, without a check of the end |
| BitStreams.BitStream.SetWriteOffset | src/RakNet/BitStream.cpp:714-717 | truncates to the offset; later stores append their bits exactly when the rest of that byte is zero |
| BitStreams.CutInMidByte | src/RakNet/BitStream.cpp:714-717 | a stream of eight set bits, cut after four: writing four clear bits gives back the eight set ones |
| BitStreams.BitStream.CopyData | src/RakNet/BitStream.cpp:696-705 | a fresh copy of the packed bits |
| CompressedInts.RoundTrip | src/RakNet/BitStream.cpp:402-588 | decoding inverts encoding for every width and both modes, consuming exactly what was written, whatever follows |
| CompressedInts.CompressedLength | src/RakNet/BitStream.cpp:402-459 | with j elided high bytes of k the length is j+1+8(k-j), or k+4 or k+8 when only the lowest byte is left |
| CompressedInts.TakenIsConsumed | src/RakNet/BitStream.cpp:515-588 | where the bits decode, the bits the loop takes are those the value consumes |
| CompressedNumbers.UnsignedCode | src/RakNet/BitStream.cpp:402-459 | the code of a number below 256^m, with m as small as can be, in size bytes: size - m set flags for the bytes of zeros, then a clear flag and the m bytes, or for one byte a set flag and four binary digits below 16, or a clear flag and eight; its length in numbers |
| CompressedNumbers.SignedCode | src/RakNet/BitStream.cpp:402-459 | the same for the signed mode on -1 - w, whose elided bytes are 0xFF and whose nibble form is taken for w below 16 |
| CompressedNumbers.LowByteForm | src/RakNet/BitStream.cpp:402-459 | the nibble form of the lowest byte is taken exactly below 16 (unsigned) or from 240 on (signed), with the last four binary digits |
| CompressedNumbers.ReadsBytes | src/RakNet/BitStream.cpp:515-588 | any number of set flags, a clear flag and bytes are read as those bytes with that many high bytes of 0 or 0xFF, whatever follows |
| CompressedNumbers.ReadsNibble | src/RakNet/BitStream.cpp:515-588 | set flags up to the lowest byte and four binary digits are read as that number, plus 240 in the signed mode, with high bytes of 0 or 0xFF |
| CompressedNumbers.ReadsExactly | src/RakNet/BitStream.cpp:515-588 | k bytes can be read if and only if there are k + 4 bits behind k set flags, or j + 1 + 8(k - j) bits when a clear flag follows j of them; the bits taken otherwise |
| NativeValues.LittleEndianBack | include/RakNet/BitStream.h:618-640 | a value survives its bytes when they can hold it |
| NativeValues.FromLittleEndianBack | include/RakNet/BitStream.h:822-847 | bytes survive the value they hold |
| NativeValues.LittleEndianAt | include/RakNet/BitStream.h:618-640 | the i-th byte is the i-th digit of the value to the base 256 |
| NativeValues.ReverseBytes | src/RakNet/BitStream.cpp:785-789 | the bytes in reverse order |
| NativeValues.WriteNative | include/RakNet/BitStream.h:618-640 | the bits on the wire do not depend on the byte order of the host |
| NativeValues.WriteCompressedNative | include/RakNet/BitStream.h:705-730 | the same for the compressed form |
| NativeValues.ReadNative | include/RakNet/BitStream.h:822-847 | the value of the next bytes, whatever the host, exactly when they are there |
| NativeValues.ReadCompressedNative | include/RakNet/BitStream.h:904-929 | the decoded value, whatever the host, exactly when the bits decode |
| Scripts.WriteDelta | include/RakNet/BitStream.h:669-698 | a clear bit for an unchanged value, else a set bit and the value |
| Scripts.WriteCompressedDelta | include/RakNet/BitStream.h:778-817 | the same with the compressed form |
| Scripts.ReadDelta | include/RakNet/BitStream.h:880-889 | keeps the variable when the bit is clear, reads it when it is set, and fails with nothing changed when there is no bit; the value of the uninitialised flag does not matter |
| Scripts.ReadCompressedDelta | include/RakNet/BitStream.h:978-988 | the same with the compressed form |
| Scripts.WriteScript | include/RakNet/BitStream.h:618-817 | a mix of writes appends the concatenation of what each of them appends at its position |
| Scripts.ScriptRoundTrip | include/RakNet/BitStream.h:618-995 | for every mix of bits, flags, values, compressed, delta, aligned and array writes, the matching reads return every value and end at the write cursor |
| Scripts.FittingNumber | src/RakNet/BitStream.cpp:347-512 | a right-aligned raw value that fits its bits comes back as the very bytes it was written from |
| Rounding.RoundedIsNearest | include/RakNet/BitStream.h:746-768 | no number of the format is nearer to a number than what it is rounded to |
| Rounding.RoundedIsRepresentable | include/RakNet/BitStream.h:746-768 | what a number is rounded to is in the format |
| Rounding.RoundedTie | include/RakNet/BitStream.h:746-768 | where two numbers of the format are equally near, the one with the even significand is taken |
| Rounding.RoundedFine | include/RakNet/BitStream.h:746-768 | every significand at every exponent of the format stays what it is |
| Rounding.RoundedCoarse | include/RakNet/BitStream.h:746-768 | nothing finer than the smallest unit of the format is left |
| CompressedFloats.SingleNumbers | include/RakNet/BitStream.h:746-754 | single precision has significands of 24 bits down to a last bit of 2^-149 |
| CompressedFloats.DoubleNumbers | include/RakNet/BitStream.h:758-768 | double precision has significands of 53 bits down to a last bit of 2^-1074 |
| CompressedFloats.FloatError | include/RakNet/BitStream.h:746-754 | with both roundings, the step that is sent is less than a 256th above the exact one and less than a step and a 256th below it |
| CompressedFloats.FloatFits | include/RakNet/BitStream.h:746-754 | with both roundings the scaled value is from 0 to 65535 for every number, so the conversion to two bytes is defined |
| CompressedFloats.FloatRoundsUp | include/RakNet/BitStream.h:746-754 | for one number the product rounds up to a whole step, so that it is sent as 65534 where the exact step is 65533 |
| CompressedFloats.FloatTie | include/RakNet/BitStream.h:746-754 | 65793 / 2^24, whose sum with 1 is halfway between two floats, is sent as step 32895 |
| CompressedFloats.FloatOrder | include/RakNet/BitStream.h:746-754 | a larger number is never sent as a smaller step |
| CompressedFloats.FloatEnds | include/RakNet/BitStream.h:746-955 | -1 and 1 come back as they are |
| CompressedFloats.FloatRelayed | include/RakNet/BitStream.h:746-955 | a number that has been read and is sent again keeps its step or goes one step down, for every step |
| CompressedFloats.FloatKept | include/RakNet/BitStream.h:746-955 | from step 16384 on, for numbers from about -1/2 on, it keeps its step |
| CompressedFloats.FloatDrifts | include/RakNet/BitStream.h:746-955 | below that it need not: step 16222 goes down to 16221 |
| CompressedFloats.WriteCompressedFloat | include/RakNet/BitStream.h:746-754 | appends the two bytes of the rounded and scaled value, on either host |
| CompressedFloats.ReadCompressedFloat | include/RakNet/BitStream.h:945-954 | succeeds exactly when 16 bits are left, and scales them back |
| CompressedFloats.DoubleFits | include/RakNet/BitStream.h:758-768 | with its rounding, the scaled value fits four bytes exactly below 1 - 2^-53 |
| CompressedFloats.DoublesThatFit | include/RakNet/BitStream.h:758-768 | among the doubles from 1/2 to 1 exactly those fit that are at most 1 - 2^-52 |
| CompressedFloats.OneDoesNotFit | include/RakNet/BitStream.h:758-768 | 1 and 1 - 2^-53 are scaled to 2^32 |
| CompressedFloats.DoubleOrder | include/RakNet/BitStream.h:758-768 | a larger number is never scaled to a smaller value |
| CompressedFloats.DoubleRoundsOnce | include/RakNet/BitStream.h:758-768 | the product is exact, whatever was rounded in the sum |
| CompressedFloats.DoubleBackIsExact | include/RakNet/BitStream.h:958-967 | reading rounds nothing |
| CompressedFloats.DoubleRelayed | include/RakNet/BitStream.h:758-967 | a double that has been read and is sent again has the same four bytes |
| CompressedFloats.FloatRoundTrip | include/RakNet/BitStream.h:746-953 | for every number, clamped as the write clamps it, what is read back with all four roundings lies less than a step and a 128th below and less than a 128th of a step above |
| CompressedFloats.WriteCompressedDouble | include/RakNet/BitStream.h:758-768 | appends the four bytes of the rounded and scaled value, on either host |
| CompressedFloats.ReadCompressedDouble | include/RakNet/BitStream.h:958-967 | succeeds exactly when 32 bits are left, and scales them back |
| CompressedFloats.DoubleRoundTrip | include/RakNet/BitStream.h:758-967 | for every number that fits, clamped, what is read back lies less than a step and 2^-53 below and at most 2^-53 above |
| HuffmanTrees.InsertSortedIsSorted | src/RakNet/DS_HuffmanEncodingTree.cpp:267-302 | insertion keeps the work list sorted |
| HuffmanTrees.InsertedLeaves | src/RakNet/DS_HuffmanEncodingTree.cpp:267-302 | insertion conserves the leaves and the total weight of the forest |
| HuffmanTrees.MergingKeepsOrder | src/RakNet/DS_HuffmanEncodingTree.cpp:104-127 | a merging round leaves the work list sorted |
| HuffmanTrees.MergeAllKeeps | src/RakNet/DS_HuffmanEncodingTree.cpp:104-127 | merging conserves the leaves and the true total |
| HuffmanTrees.MergeAllConsistent | src/RakNet/DS_HuffmanEncodingTree.cpp:104-127 | every stored weight is the true one modulo 2^32 |
| HuffmanTrees.InitialListSorted | src/RakNet/DS_HuffmanEncodingTree.cpp:82-98 | the initial list is sorted and has one leaf for every symbol |
| HuffmanTrees.InitialListOrder | src/RakNet/DS_HuffmanEncodingTree.cpp:82-98 | among equal weights the later symbol comes first |
| HuffmanTrees.BuildTreeKeeps | src/RakNet/DS_HuffmanEncodingTree.cpp:82-127 | the built tree has exactly one leaf for every symbol, with its raised weight, whatever the frequencies |
| Kraft.GreedyIsLowerBound | src/RakNet/DS_HuffmanEncodingTree.cpp:104-127 | merging the two lightest costs no more than any code lengths that meet the Kraft equality |
| Kraft.LightestDeepest | src/RakNet/DS_HuffmanEncodingTree.cpp:104-127 | the exchange argument: two lightest can be made two deepest at no cost |
| Optimality.OptimalOverLengths | src/RakNet/DS_HuffmanEncodingTree.cpp:82-127 | no code lengths for the same weights with Kraft sum one cost less than the built tree, as long as no inner node below the root wraps around |
| Optimality.Optimal | src/RakNet/DS_HuffmanEncodingTree.cpp:82-127 | no binary tree over leaves of the same weights has a smaller weighted depth, as long as no inner node below the root wraps around |
| Optimality.AtMostEightBits | src/RakNet/DS_HuffmanEncodingTree.cpp:82-127 | with 256 symbols the weighted depth is at most 8 times the total of the raised weights, under the same condition |
| Optimality.NoOverflowIsEnough | src/RakNet/DS_HuffmanEncodingTree.cpp:104-127 | with a total below 2^32 no inner node wraps around |
| WeightOverflow.OverflowIsNotOptimal | src/RakNet/DS_HuffmanEncodingTree.cpp:72-127 | 256 frequencies of 2^31 give a tree that is not optimal: the balanced tree over the same weights costs less, because every other merged weight wraps around to 0 |
| WeightOverflow.OverflowIsDeep | src/RakNet/DS_HuffmanEncodingTree.cpp:72-171 | the same frequencies give some byte a codeword of 255 bits |
| WeightOverflow.BoundIsNotNecessary | src/RakNet/DS_HuffmanEncodingTree.cpp:82-127 | 256 frequencies of 2^24 sum to 2^32, and no inner node below the root wraps around |
| DepthBound.CodeDepthForcesTotal | src/RakNet/DS_HuffmanEncodingTree.cpp:104-169 | a codeword of length d forces a total of at least Fib(d+2) |
| DepthBound.AtMost45Bits | src/RakNet/DS_HuffmanEncodingTree.cpp:129-169 | with a total below 2^32 no codeword is longer than 45 bits |
| Codes.CodeIsOnlyPath | src/RakNet/DS_HuffmanEncodingTree.cpp:137-171 | the codeword of a symbol is the only path to it |
| Codes.CodeTurns | src/RakNet/DS_HuffmanEncodingTree.cpp:139-155 | a clear bit turns left and a set bit turns right |
| Codes.PrefixFree | src/RakNet/DS_HuffmanEncodingTree.cpp:137-171 | no codeword is a prefix of another |
| Codes.BuildTreeAlphabet | src/RakNet/DS_HuffmanEncodingTree.cpp:82-127 | every byte value has exactly one leaf, even when weights wrap around |
| Codes.KraftEquality | src/RakNet/DS_HuffmanEncodingTree.cpp:82-171 | the codeword lengths have Kraft sum exactly one |
| Codes.LongCodeword | src/RakNet/DS_HuffmanEncodingTree.cpp:184-203 | among 256 symbols some codeword has eight bits or more |
| Codes.CodewordFits | src/RakNet/DS_HuffmanEncodingTree.cpp:129-169 | every codeword has 1 to 255 bits: the scratch array is long enough and the cast of the length loses nothing |
| Codes.DecodeEncode | src/RakNet/DS_HuffmanEncodingTree.cpp:175-236 | decoding an encoding gives back the text, and a padding that ends at an inner node emits nothing |
| Codes.Split | src/RakNet/DS_HuffmanEncodingTree.cpp:206-236 | every bit string is codewords followed by a proper prefix of one, and decoding finds them |
| Codes.UniqueSplit | src/RakNet/DS_HuffmanEncodingTree.cpp:206-236 | it is so in exactly one way |
| LearntTrees.EncodedLength | src/RakNet/DS_HuffmanEncodingTree.cpp:175-182 | the length of an encoding is the sum of its codeword lengths, each as often as its byte occurs |
| LearntTrees.LearntIsOptimal | src/RakNet/StringCompressor.cpp:322-348 | for every text, no complete tree encodes the text plus one of each missing byte in fewer bits than the learnt one |
| LearntTrees.SingleByteLoses | src/RakNet/StringCompressor.cpp:322-348 | the documented optimality for the text fails on every text of one byte: the learnt codeword has two bits or more, and some complete tree gives that byte one bit |
| LearntTrees.FullTextIsShortest | src/RakNet/StringCompressor.cpp:322-348 | when every byte occurs, which is sufficient, no complete prefix code makes the text shorter |
| TreeNodes.CodeLeadsToTip | src/RakNet/DS_HuffmanEncodingTree.cpp:137-171 | the codeword of a symbol leads to the heap node of its leaf |
| TreeNodes.TreeNode.Delete | src/RakNet/DS_HuffmanEncodingTree.cpp:57-57 | only a live node can be deleted, and it is dead afterwards |
| TreeNodes.ParentAt | src/RakNet/DS_HuffmanEncodingTree.cpp:143-158 | going to the parent and testing its left pointer reads the last bit of the path |
| TreeNodes.InsertSortedIsInsertAt | src/RakNet/DS_HuffmanEncodingTree.cpp:267-302 | sorted insertion on trees is insertion at the place the list search finds |
| TreeBuilding.InsertNodeIntoSortedList | src/RakNet/DS_HuffmanEncodingTree.cpp:267-302 | the node goes after all lighter ones at the front of the pointer list |
| TreeBuilding.Join | src/RakNet/DS_HuffmanEncodingTree.cpp:108-114 | the new heap node stands over the two trees, with the wrapped sum of their weights |
| TreeBuilding.PlantLeaves | src/RakNet/DS_HuffmanEncodingTree.cpp:82-98 | the list holds the initial forest, and the leaf array the leaf of every symbol |
| TreeBuilding.MergeTrees | src/RakNet/DS_HuffmanEncodingTree.cpp:104-127 | the heap loop ends with one linked tree: the result of merging, over the same leaf nodes, with no parent at the root |
| CodeTables.WalkUp | src/RakNet/DS_HuffmanEncodingTree.cpp:139-155 | the walk along parent pointers stores the path from the root in reverse |
| CodeTables.ExtractCode | src/RakNet/DS_HuffmanEncodingTree.cpp:137-171 | a table entry holds the length of the codeword and its packed bits |
| CodeTables.FillTable | src/RakNet/DS_HuffmanEncodingTree.cpp:137-171 | the table holds the codeword of every byte |
| TextCoding.PaddingIsInner | src/RakNet/DS_HuffmanEncodingTree.cpp:184-203 | a padding of up to seven bits always exists and ends inside the tree |
| TextCoding.PaddingIs | src/RakNet/DS_HuffmanEncodingTree.cpp:184-203 | the padding has fewer than eight bits and is the start of the first codeword, in the order of the bytes, that is longer than it |
| TextCoding.PaddedRoundTrip | src/RakNet/DS_HuffmanEncodingTree.cpp:175-236 | from every write offset the encoding ends on a byte boundary, and decoding all of it, padding included, gives exactly the text |
| HuffmanEncodingTrees.HuffmanEncodingTree.constructor | src/RakNet/DS_HuffmanEncodingTree.cpp:26-29 | a coder without a tree |
| HuffmanEncodingTrees.HuffmanEncodingTree.FreeMemory | src/RakNet/DS_HuffmanEncodingTree.cpp:36-66 | every node of the tree is deleted exactly once and nothing else is; a node has to be live to be looked at or deleted, and all of them are dead at the end |
| HuffmanEncodingTrees.HuffmanEncodingTree.DeleteNodes | src/RakNet/DS_HuffmanEncodingTree.cpp:42-58 | the queue-driven loop behind it, which terminates; the branches of a node are pushed while it is live |
| HuffmanEncodingTrees.HuffmanEncodingTree.GenerateFromFrequencyTable | src/RakNet/DS_HuffmanEncodingTree.cpp:72-172 | the coder holds the built tree, linked on the heap in fresh nodes, with the table of its codewords |
| HuffmanEncodingTrees.HuffmanEncodingTree.EncodeArray | src/RakNet/DS_HuffmanEncodingTree.cpp:175-204 | appends the codewords and the padding, for every offset |
| HuffmanEncodingTrees.HuffmanEncodingTree.PadToByte | src/RakNet/DS_HuffmanEncodingTree.cpp:185-196 | writes the start of the first codeword that is longer than the missing bits |
| HuffmanEncodingTrees.HuffmanEncodingTree.DecodeArray | src/RakNet/DS_HuffmanEncodingTree.cpp:206-236 | counts all decoded characters, stores the first of them that fit, and leaves the rest of the buffer alone |
| HuffmanEncodingTrees.HuffmanEncodingTree.ArrayThroughStream | src/RakNet/DS_HuffmanEncodingTree.cpp:175-236 | a text encoded at any offset and decoded from there: the encoding ends on a byte boundary with the cursor at its end, every character is counted, as many as the buffer may take are in it, and the rest of the buffer is untouched |
| HuffmanEncodingTrees.HuffmanEncodingTree.DecodeArrayToStream | src/RakNet/DS_HuffmanEncodingTree.cpp:239-264 | appends a byte for every decoded character |
| StringCodec.DecodeCut | src/RakNet/StringCompressor.cpp:370-408 | a cut encoding decodes to the longest run of whole codewords within the cut |
| StringCodec.PrefixComesBack | src/RakNet/StringCompressor.cpp:356-415 | for every text the symbols that come back are the longest prefix the stored length allows, and the cursor ends at the end of the record |
| StringCodec.StringRoundTrip | src/RakNet/StringCompressor.cpp:356-415 | the reader's buffer holds the text cut to its limit and terminated, if and only if those characters survive the 16-bit length; they do whenever the encoding has at most 65535 bits |
| StringCodec.NoStringReads | src/RakNet/StringCompressor.cpp:363-367 | the record of a null pointer reads as the empty string |
| StringCodec.LongStringIsLost | src/RakNet/StringCompressor.cpp:380-384 | 65536 copies of any character come back as nothing |
| StringCompressors.CountBytes | src/RakNet/StringCompressor.cpp:337-342 | the table holds the number of occurrences of every byte |
| StringCompressors.OccurrencesAre | src/RakNet/StringCompressor.cpp:337-342 | that number is the number of places where the byte stands |
| StringCompressors.StringCompressor.constructor | src/RakNet/StringCompressor.cpp:313-321 | language 0 is there from the start, with the tree of the given frequencies |
| StringCompressors.StringCompressor.GenerateTreeFromStrings | src/RakNet/StringCompressor.cpp:322-348 | the language gets the tree of the text's counts and no other language changes; without a text nothing changes, except that an old coder of the language has been deleted and stays in use, which breaks the compressor exactly then |
| StringCompressors.StringCompressor.EncodeString | src/RakNet/StringCompressor.cpp:356-387 | nothing for an unknown language, a length of 0 for a null pointer, else the record of the string up to its terminator, cut to one character less than a positive limit and not cut at all by a limit of 0 or less |
| StringCompressors.StringCompressor.DecodeString | src/RakNet/StringCompressor.cpp:389-415 | the three ways a read can end, with the result, the cursor and the whole buffer for each, in terms of the bits at the cursor; where no length can be read the cursor is behind exactly the bits taken |
| StringCompressors.StringCompressor.ThroughStream | src/RakNet/StringCompressor.cpp:356-415 | a string written at any offset and read back from there, by hosts of any byte order: the cursor ends behind the record, and the buffer holds the text, cut to both limits (the first one only when it is positive) and terminated, if and only if those characters survive the 16-bit length |
| RpcFrames.ParseBack | include/RakHook/rakhook.hpp:233-274 | a built frame parses to exactly its id and payload, with or without a timestamp header |
| RpcFrames.BuiltBits | include/RakHook/rakhook.hpp:271-280 | a built frame is the header, the id, the compressed number of payload bits, the payload, and clear bits up to the byte boundary |
| RpcFrames.ParsesExactly | include/RakHook/rakhook.hpp:227-264 | a frame is well formed if and only if an id and a count can be read behind one byte, or behind six when the first is 40, and at least that many bits follow; its id, count and payload are those |
| RpcFrames.EveryCountParses | include/RakHook/rakhook.hpp:227-264 | every frame of a header, an id, any number of bits below 2^32 and those bits is well formed and parses to them, whatever follows |
| RpcFrames.Dropped | include/RakHook/rakhook.hpp:227-270 | nothing is forwarded if and only if the frame is malformed or the callback blocks it |
| RpcFrames.ForwardedFrame | include/RakHook/rakhook.hpp:223-281 | whatever an allowed edit leaves in the callback's stream, the forwarded frame keeps the bytes before the id and parses to the edited id and to the edited bits rounded up to whole bytes |
| RpcFrames.DeliveredBits | include/RakHook/rakhook.hpp:264-280 | the delivered bytes start with exactly the bits the callback left; the rest of the last one is the spare bits behind them in the buffer, and zeros when there are none |
| RpcFrames.Transparent | include/RakHook/rakhook.hpp:223-281 | without an edit the original payload bits are the first bits of the forwarded payload |
| RpcFrames.Idempotent | include/RakHook/rakhook.hpp:223-281 | whatever edit a frame has been through, rewriting the forwarded frame again without one gives byte-identical output |
| RpcFrames.CountTakesAByte | include/RakHook/rakhook.hpp:239-243 | where the unchecked read of the id fails, the read of the count fails too |
| RakHooks.ReadFrame | include/RakHook/rakhook.hpp:227-264 | the parsing half over a copying stream accepts exactly the well-formed frames (`RpcFrames.ParsesExactly`) and finds their id and payload bytes, whatever the number of bits |
| RakHooks.Rebuild | include/RakHook/rakhook.hpp:271-280 | writing over the stream from the id on yields the bytes of the new frame |
| RakHooks.RakHook.HandleRpcPacket | include/RakHook/rakhook.hpp:223-281 | the peer and the player are remembered, and the bytes handed to the original handler are those of the rewritten frame, or none when the event is malformed or blocked; the callback may leave any bits, not only whole bytes |
| RakHooks.RakHook.EmulRpc | include/RakHook/rakhook.hpp:143-155 | nothing before a peer is known, else the frame of the id and the stream's bytes |
| RakHooks.EmulatedFrame | include/RakHook/rakhook.hpp:143-155 | such a frame parses back to exactly the id and the bytes, the empty payload included |
| LinkedLists.CircularLinkedList.Beginning | include/RakNet/DS_LinkedList.h:238-243 | the cursor is at the root |
| LinkedLists.CircularLinkedList.End | include/RakNet/DS_LinkedList.h:245-250 | the cursor is at the last node |
| LinkedLists.CircularLinkedList.Insert | include/RakNet/DS_LinkedList.h:620-695 | the item goes before the cursor; the ring stays one cycle in both directions; at the root the new node becomes the root |
| LinkedLists.CircularLinkedList.Add | include/RakNet/DS_LinkedList.h:697-771 | the item goes after the cursor, which stays; on a list of one the item returned is the old one |
| LinkedLists.CircularLinkedList.Replace | include/RakNet/DS_LinkedList.h:773-779 | the item under the cursor is replaced |
| LinkedLists.CircularLinkedList.Del | include/RakNet/DS_LinkedList.h:781-814 | the item under the cursor goes, the cursor is on the next one, around the end to the root |
| LinkedLists.CircularLinkedList.Pop | include/RakNet/DS_LinkedList.h:890-897 | the same, returning the item |
| LinkedLists.CircularLinkedList.Find | include/RakNet/DS_LinkedList.h:832-847 | found exactly when it is there; the cursor goes to the first occurrence or stays |
| LinkedLists.CircularLinkedList.FindPointer | include/RakNet/DS_LinkedList.h:849-875 | the first node from the root that holds the item |
| LinkedLists.CircularLinkedList.Advance | include/RakNet/DS_LinkedList.h:899-907 | the cursor moves to the next item, and from the last one to the root |
| LinkedLists.CircularLinkedList.Retreat | include/RakNet/DS_LinkedList.h:927-935 | the cursor moves to the item before, and from the root to the last one |
| LinkedLists.CircularLinkedList.AdvanceWithin | include/RakNet/DS_LinkedList.h:1193-1201 | the linear cursor stops at the last node |
| LinkedLists.CircularLinkedList.RetreatWithin | include/RakNet/DS_LinkedList.h:1221-1229 | and at the root |
| LinkedLists.CircularLinkedList.Clear | include/RakNet/DS_LinkedList.h:955-987 | an empty list |
| LinkedLists.CircularLinkedList.Assign | include/RakNet/DS_LinkedList.h:531-618 | a copy in fresh nodes, with the cursor at the same place; assigning a list to itself does nothing |
| LinkedLists.CircularLinkedList.Concatenate | include/RakNet/DS_LinkedList.h:989-1018 | appends the other list; onto an empty list the other list is there twice |
| LinkedSort.MergeAscends | include/RakNet/DS_LinkedList.h:1069-1111 | merging ascending lists ascends, for any strict weak order |
| LinkedSort.MergePermutes | include/RakNet/DS_LinkedList.h:1069-1111 | merging loses and doubles nothing |
| LinkedSort.MergeTies | include/RakNet/DS_LinkedList.h:1069-1111 | of items that are equal in the order those of the second list come first, and the items of one list keep their order |
| LinkedSort.Merge | include/RakNet/DS_LinkedList.h:1069-1111 | the pointer loop with its closing concatenation computes the merge |
| LinkedSort.MergeBoth | include/RakNet/DS_LinkedList.h:1079-1102 | when the loop ends exactly one list is empty and the result is not, so the closing concatenation has items on both sides |
| LinkedSort.Fill | include/RakNet/DS_LinkedList.h:1042-1056 | a half filled by adding at an unmoving cursor |
| LinkedSort.FilledAt | include/RakNet/DS_LinkedList.h:1042-1056 | it holds the first item, then the others in reverse |
| LinkedSort.Halve | include/RakNet/DS_LinkedList.h:1042-1056 | the halves have their sizes and together all the items |
| LinkedSort.FilledPermutes | include/RakNet/DS_LinkedList.h:1042-1056 | the reordering is a permutation |
| LinkedSort.Mergesort | include/RakNet/DS_LinkedList.h:1032-1067 | a permutation of at least two items of any type, ascending when the comparison is a strict weak order, in a fresh list |
| LinkedSort.Sort | include/RakNet/DS_LinkedList.h:1020-1030 | a permutation of the items, ascending when the comparison is a strict weak order, the cursor at the root |
| Queues.Queue.constructor | include/RakNet/DS_Queue.h:80-87 | an empty queue of sixteen places |
| Queues.Queue.Size | include/RakNet/DS_Queue.h:59-66 | the number of elements across the wrap-around |
| Queues.Queue.Pop | include/RakNet/DS_Queue.h:96-111 | takes the first element |
| Queues.Queue.Peek | include/RakNet/DS_Queue.h:168-177 | the first element |
| Queues.Queue.Push | include/RakNet/DS_Queue.h:179-224 | appends; the capacity becomes 16 from 0, doubles when the element fills the buffer, and stays otherwise |
| Queues.Queue.PushAtHead | include/RakNet/DS_Queue.h:113-165 | puts an element at an index, in front of everything by default, with the same growth; an index behind the end loses the element and takes in the cell at the tail |
| Queues.Queue.Clear | include/RakNet/DS_Queue.h:282-296 | an empty queue |
| Queues.Queue.Compress | include/RakNet/DS_Queue.h:298-322 | the same elements in a buffer of the smallest power of two above their number |
| Queues.PowerAbove | include/RakNet/DS_Queue.h:306-308 | that power of two |
| Queues.PowerOfTwoMeans | include/RakNet/DS_Queue.h:306-308 | the powers of two are the numbers 2^k |
| Queues.Queue.Find | include/RakNet/DS_Queue.h:324-341 | found exactly when it is there |
| Queues.Queue.ClearAndForceAllocation | include/RakNet/DS_Queue.h:343-351 | an empty queue of the given capacity |
| Queues.Queue.At | include/RakNet/DS_Queue.h:353-365 | the element at a position across the wrap-around |
| Queues.Queue.Del | include/RakNet/DS_Queue.h:367-410 | removes the element at a position, shifting the rest across the wrap-around; nothing when there is none |
| Lists.List.InsertAt | include/RakNet/DS_List.h:191-236 | inserts at the position, doubling from 16 when full |
| Lists.List.Insert | include/RakNet/DS_List.h:239-273 | appends |
| Lists.List.Replace | include/RakNet/DS_List.h:275-321 | replaces, or grows to the position with filler in the gap |
| Lists.List.RemoveAtIndex | include/RakNet/DS_List.h:330-348 | removes and closes the gap; nothing beyond the end |
| Sequences.InsertedAt | include/RakNet/DS_List.h:191-236 | insertion leaves what is before the place and moves the rest one place back |
| Sequences.RemovedAt | include/RakNet/DS_List.h:330-348 | removal leaves what is before the place and moves the rest one place forward |
| Lists.List.MakeRoom | include/RakNet/DS_List.h:199-224 | room for one more, doubling from 16 when full, with the same contents |
| OrderedLists.OneSlot | include/RakNet/DS_OrderedList.h:107-151 | the insertion point of a key is unique |
| OrderedLists.OrderedList.GetIndexFromKey | include/RakNet/DS_OrderedList.h:107-151 | binary search finds the key exactly when it is there, and in any case the place with all smaller keys before it and no smaller one from there on |
| OrderedLists.OrderedList.Insert | include/RakNet/DS_OrderedList.h:153-174 | a new key goes to its place, keeping strict order; one that is there is refused |
| OrderedLists.OrderedList.Remove | include/RakNet/DS_OrderedList.h:176-190 | a key that is there goes |
| Maps.Map.Get | include/RakNet/DS_Map.h:126-138 | the data of the key, by cache or by search |
| Maps.Map.GetIndexAtKey | include/RakNet/DS_Map.h:140-152 | the index of the key, which is then cached |
| Maps.Map.RemoveAtIndex | include/RakNet/DS_Map.h:154-159 | the entry goes and the cache with it |
| Maps.Map.Pop | include/RakNet/DS_Map.h:161-177 | the data of the key, which goes |
| Maps.Map.Set | include/RakNet/DS_Map.h:179-202 | the map with the key set |
| Maps.Map.SetExisting | include/RakNet/DS_Map.h:204-222 | the same for a key that is there |
| Maps.Map.SetNew | include/RakNet/DS_Map.h:224-234 | adds a new key; the cache stays right exactly when the key was new |
| Maps.Map.Has | include/RakNet/DS_Map.h:236-248 | whether the key is there |
| Maps.Map.Delete | include/RakNet/DS_Map.h:250-271 | whether the key was there; it is gone |
| Maps.Map.Clear | include/RakNet/DS_Map.h:273-278 | the empty map |
| Maps.Map.Run | include/RakNet/DS_Map.h:126-310 | over any run of operations, those by index among them, the sorted array with its cache answers as a plain finite map does |
| Maps.RankIsIndex | include/RakNet/DS_Map.h:140-159 | the index of a key in the sorted array is the number of smaller keys of the map |

## Left out

- Hook wrappers, vtables, version addresses, `emul_packet`, `initialize` and `destroy`: foreign memory and Windows calls. The original handler is an output: its argument is the result of the model, its return value is not modelled.
- The callback of a received RPC is an arbitrary function from an id and the payload bits to a verdict; one that leaves more bits than a 32-bit count of them can say is not allowed. What it does to the stream is given by the bits it leaves and the spare bits behind them in the buffer.
- 32-bit overflow of bit counts in general: counts and offsets of the stream are unbounded.
- `SetData`, `SetNumberOfBitsAllocated`, `AssertCopyData` and the destructor of the stream: ownership of buffers is not modelled.
- Vectors, quaternions and matrices; infinities and numbers that are not numbers; and compilers that keep more digits between two floating point operations than the format of the operands has.
- BitStreams.BitStream.ReadBit: requires a bit to be left, because the original does not check.
- BitStreams.BitStream.WriteStream: two different streams over one buffer, which only the form without a copy can make, are excluded; a stream written into itself is `WriteOwn`.
- Growth.CopiesBounded: copies by growth only; the copies of `FromBytes` and `CopyData` are not counted.
- CompressedFloats.WriteCompressedDouble: requires a number below 1 - 2^-53, because converting the scaled value to 32 bits is not defined from there on. The assertions on the range of both forms, which only a debug build has, are not modelled.
- CompressedFloats.FloatKept: from step 16384 on is sufficient; which of the steps below go down is left to the two roundings that decide it.
- BitStreams.BitStream.IgnoreBits: a count that moves the cursor before the start of the stream is excluded.
- LinkedLists.CircularLinkedList.Concatenate: a list appended to itself is excluded; the loop of the original does not end then, because every item it adds makes the list it counts longer.
- Queues.Queue.PushAtHead: at an index above 0 the elements that move must not go around the end of the buffer, where the original reads outside of it.
- LearntTrees.FullTextIsShortest: that every byte occurs is sufficient for the text itself to be shortest, and not necessary.
- HuffmanEncodingTrees.HuffmanEncodingTree.DecodeArray: requires the bits to be there, which its caller checks.
- HuffmanEncodingTrees.HuffmanEncodingTree.FreeMemory: the deletion of the codeword buffers, which are values in the table here, is not modelled.
- StringCompressors.StringCompressor.DecodeString: requires a buffer of at least one character, which the original writes to unconditionally.
- The coders of the compressor are in a plain finite map; `Maps` shows that the original's map answers as one.
- LinkedSort.Sort: for items that are values; memory of list nodes that are let go is not modelled.
- Maps.Map.Get: requires the key, as the original asserts; the same holds for `Pop`, `SetExisting` and `GetIndexAtKey`.
- Optimality.Optimal: requires that no inner node below the root wraps around, which is sufficient; without it the claim is false (`WeightOverflow.OverflowIsNotOptimal`).
- Copy constructors, `LinkedList::Mergesort` and `Merge` (which name members that do not exist and are never instantiated), and the thin accessors: they would add only easy members.
- `signal`, `PluginInterface`, `RakClientInterface`, the packet enumerations beyond the two numbers used, the sample plugin and the test programs.
