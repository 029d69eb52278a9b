/** String records as functions on bit strings: a compressed 16-bit bit count, then that many bits of
    the encoded text. The count keeps only the low 16 bits of the length of the encoding. */
module StringCodec {
  import opened Bytes
  import opened BitStreams
  import opened CompressedInts
  import opened NativeValues
  import opened HuffmanTrees
  import opened Codes
  import opened DepthBound
  import opened CodeTables
  import opened TextCoding

  // strlen
  function StringLength(s: seq<byte>): (n: nat)
    requires 0 in s
    ensures n < |s| && s[n] == 0 && 0 !in s[..n]
  {
    if s[0] == 0 then 0 else 1 + StringLength(s[1..])
  }

  // how many characters a string of that length keeps, the limit counting its terminator
  function Kept(length: nat, maxChars: int): (n: nat)
    ensures n <= length
  {
    if maxChars <= 0 || length < maxChars then length else maxChars - 1
  }

  // the bit count that is stored
  ghost function StoredLength(t: Tree, text: seq<byte>): (n: nat)
    requires Alphabet(t)
    ensures n <= |EncodedText(t, 0, text)| && n < 65536
  {
    |EncodedText(t, 0, text)| % 65536
  }

  ghost function Record(t: Tree, text: seq<byte>): seq<bool>
    requires Alphabet(t)
  {
    Compress(LittleEndian(StoredLength(t, text), 2), true) + EncodedText(t, 0, text)[..StoredLength(t, text)]
  }

  // what reading a record finds: no length, too few bits, or the symbols; and the bits taken in each case
  datatype Reading = NoLength(consumed: nat) | TooShort(consumed: nat) | Text(symbols: seq<nat>, consumed: nat)

  function ReadRecord(t: Tree, bits: seq<bool>): Reading
    requires t.Node?
  {
    match Decompress(bits, 2, true)
    case None => NoLength(Taken(bits, 2))
    case Some(d) =>
      var length := FromLittleEndian(d.value);
      if |bits| - d.consumed < length then TooShort(d.consumed)
      else Text(Decode(t, t, bits[d.consumed..d.consumed + length]).output, d.consumed + length)
  }

  // the buffer after a text has been stored in it: as much of it as fits, then the terminator
  ghost predicate Terminated(now: seq<byte>, was: seq<byte>, symbols: seq<nat>, maxCharsToWrite: nat) {
    var n := Kept(|symbols|, maxCharsToWrite);
    && 1 <= maxCharsToWrite <= |was| == |now|
    && now[..n] == Characters(symbols[..n]) && now[n] == 0 && now[n + 1..] == was[n + 1..]
  }

  // A cut encoding decodes to the longest run of whole codewords within the cut.
  lemma {:induction false} DecodeCut(t: Tree, text: seq<nat>, pad: seq<bool>, cut: nat)
    requires t.Node? && (forall c :: c in text ==> c in LeafValues(t)) && IsPath(t, pad) && At(t, pad).Node?
    requires cut <= |Encode(t, text) + pad|
    ensures var got := Decode(t, t, (Encode(t, text) + pad)[..cut]).output;
            && |got| <= |text| && got == text[..|got|] && |Encode(t, text[..|got|])| <= cut
            && (|got| < |text| ==> |Encode(t, text[..|got| + 1])| > cut)
    decreases |text|
  {
    hide IsPath, At, Code, LeafValues;
    if text == [] {
      CutPadding(t, pad, cut);
      assert Encode(t, text) + pad == pad;
    } else {
      hide Encode, Decode;
      var code, rest := Code(t, text[0]), Encode(t, text[1..]) + pad;
      EncodeSplit(t, text, pad);
      if |code| <= cut {
        DecodeCut(t, text[1..], pad, cut - |code|);
        assert (code + rest)[..cut] == code + rest[..cut - |code|];
        DecodeToLeaf(t, t, code, rest[..cut - |code|]);
        var more := Decode(t, t, rest[..cut - |code|]).output;
        FirstKept(t, text, |more|);
        if |more| < |text| - 1 {
          FirstKept(t, text, |more| + 1);
        }
        assert text[..|more| + 1] == [text[0]] + text[1..][..|more|];
      } else {
        assert (code + rest)[..cut] == code[..cut];
        ProperPrefixIsInner(t, code, cut);
        DecodeInner(t, t, code[..cut]);
        FirstKept(t, text, 0);
        EmptyText(t);
        assert text[..0] == [];
      }
    }
  }

  lemma CutPadding(t: Tree, pad: seq<bool>, cut: nat)
    requires t.Node? && IsPath(t, pad) && At(t, pad).Node? && cut <= |pad|
    ensures Decode(t, t, pad[..cut]).output == []
  {
    if cut < |pad| {
      ProperPrefixIsInner(t, pad, cut);
    } else {
      assert pad[..cut] == pad;
    }
    DecodeInner(t, t, pad[..cut]);
  }

  lemma FirstKept(t: Tree, text: seq<nat>, k: nat)
    requires k < |text| && forall c :: c in text ==> c in LeafValues(t)
    ensures |Encode(t, text[..k + 1])| == |Code(t, text[0])| + |Encode(t, text[1..][..k])|
  {
    assert text[..k + 1][1..] == text[1..][..k];
  }

  lemma {:induction false} EncodeMonotone(t: Tree, text: seq<nat>, j: nat, k: nat)
    requires t.Node? && j <= k <= |text| && forall c :: c in text ==> c in LeafValues(t)
    ensures |Encode(t, text[..j])| <= |Encode(t, text[..k])|
    decreases k
  {
    hide Code, LeafValues;
    if j > 0 {
      FirstKept(t, text, j - 1);
      FirstKept(t, text, k - 1);
      EncodeMonotone(t, text[1..], j - 1, k - 1);
    } else {
      EmptyText(t);
      assert text[..0] == [];
    }
  }

  // Reading a record gives what its stored part of the encoding decodes to, and takes exactly the record,
  // whatever follows it.
  lemma RecordReads(t: Tree, text: seq<byte>, rest: seq<bool>)
    requires Complete(t)
    ensures var body := EncodedText(t, 0, text)[..StoredLength(t, text)];
            ReadRecord(t, Record(t, text) + rest) == Text(Decode(t, t, body).output, |Record(t, text)|)
  {
    hide LeafValues, Unambiguous, EncodedText, Decode, Compress, Decompress, LittleEndian, FromLittleEndian;
    var length := StoredLength(t, text);
    var head, body := Compress(LittleEndian(length, 2), true), EncodedText(t, 0, text)[..length];
    assert Record(t, text) + rest == head + (body + rest);
    RoundTrip(LittleEndian(length, 2), true, body + rest);
    assert Pow256(2) == 65536;
    LittleEndianBack(length, 2);
    Splice(Record(t, text) + rest, head, body, rest);
  }

  // the symbols that come back are a prefix of the text, as long as the stored bits allow
  lemma PrefixComesBack(t: Tree, text: seq<byte>, rest: seq<bool>) returns (k: nat)
    requires Complete(t)
    ensures k <= |text| && ReadRecord(t, Record(t, text) + rest) == Text(Symbols(text)[..k], |Record(t, text)|)
    ensures |Encode(t, Symbols(text)[..k])| <= StoredLength(t, text)
    ensures k < |text| ==> |Encode(t, Symbols(text)[..k + 1])| > StoredLength(t, text)
  {
    hide LeafValues, Unambiguous, Encode, Decode, Record, ReadRecord, PaddingBits, IsPath, At;
    var symbols := Symbols(text);
    var n := Padding(0 + |Encode(t, symbols)|);
    PaddingIsInner(t, n);
    RecordReads(t, text, rest);
    DecodeCut(t, symbols, PaddingBits(t, n), StoredLength(t, text));
    k := |Decode(t, t, EncodedText(t, 0, text)[..StoredLength(t, text)]).output|;
  }

  // the first n characters survive the cut of the length to 16 bits
  ghost predicate Survives(t: Tree, text: seq<byte>, n: nat)
    requires Complete(t) && n <= |text|
  {
    |Encode(t, Symbols(text)[..n])| <= StoredLength(t, text)
  }

  lemma SurvivesWhen(t: Tree, text: seq<byte>, n: nat, k: nat)
    requires Complete(t) && n <= |text| && k <= |text| && |Encode(t, Symbols(text)[..k])| <= StoredLength(t, text)
    requires k < |text| ==> |Encode(t, Symbols(text)[..k + 1])| > StoredLength(t, text)
    ensures Survives(t, text, n) <==> n <= k
  {
    hide LeafValues, Unambiguous, Encode, EncodedText;
    if n <= k {
      EncodeMonotone(t, Symbols(text), n, k);
    } else {
      EncodeMonotone(t, Symbols(text), k + 1, n);
    }
  }

  // The string codec: what the reader's buffer holds after reading a record is the text cut to the
  // reader's limit and terminated, exactly when those characters survive the 16-bit length. The
  // condition holds for every encoding of at most 65535 bits.
  lemma StringRoundTrip(t: Tree, text: seq<byte>, rest: seq<bool>, now: seq<byte>, was: seq<byte>, maxCharsToWrite: nat)
    requires Complete(t) && 0 !in text && maxCharsToWrite >= 1
    ensures ReadRecord(t, Record(t, text) + rest).Text? &&
            ReadRecord(t, Record(t, text) + rest).consumed == |Record(t, text)|
    ensures var n := Kept(|text|, maxCharsToWrite);
            Terminated(now, was, ReadRecord(t, Record(t, text) + rest).symbols, maxCharsToWrite) ==>
              n < |now| && (now[..n] == text[..n] && now[n] == 0 <==> Survives(t, text, n))
    ensures |EncodedText(t, 0, text)| <= 65535 ==> Survives(t, text, Kept(|text|, maxCharsToWrite))
  {
    hide Encode, Record, ReadRecord, Complete, StoredLength, EncodedText;
    var n := Kept(|text|, maxCharsToWrite);
    var k := PrefixComesBack(t, text, rest);
    SurvivesWhen(t, text, n, k);
    ShortSurvives(t, text, n);
    if Terminated(now, was, Symbols(text)[..k], maxCharsToWrite) {
      StoredPrefix(text, k, now, was, maxCharsToWrite);
    }
  }

  // a terminated prefix of k characters is the wanted text exactly when it is long enough
  lemma StoredPrefix(text: seq<byte>, k: nat, now: seq<byte>, was: seq<byte>, maxCharsToWrite: nat)
    requires 0 !in text && maxCharsToWrite >= 1 && k <= |text| &&
             Terminated(now, was, Symbols(text)[..k], maxCharsToWrite)
    ensures var n := Kept(|text|, maxCharsToWrite);
            n < |now| && (now[..n] == text[..n] && now[n] == 0 <==> n <= k)
  {
    var n := Kept(|text|, maxCharsToWrite);
    KeptPrefix(text, k);
    if n <= k {
      assert Kept(k, maxCharsToWrite) == n;
      KeptPrefix(text, n);
      assert Symbols(text)[..k][..n] == Symbols(text)[..n];
    } else {
      assert Kept(k, maxCharsToWrite) == k;
      assert now[k] == 0 && text[k] in text;
      assert now[..n][k] != text[..n][k];
    }
  }

  lemma KeptPrefix(text: seq<byte>, n: nat)
    requires n <= |text|
    ensures Characters(Symbols(text)[..n]) == text[..n]
  {
    assert Symbols(text)[..n] == Symbols(text[..n]);
    CharactersOfSymbols(text[..n]);
  }

  lemma ShortSurvives(t: Tree, text: seq<byte>, n: nat)
    requires Complete(t) && n <= |text|
    ensures |EncodedText(t, 0, text)| <= 65535 ==> Survives(t, text, n)
  {
    hide Encode, LeafValues, Unambiguous, PaddingBits;
    EncodeMonotone(t, Symbols(text), n, |text|);
    assert Symbols(text)[..|text|] == Symbols(text);
  }

  // The record of no string, a length of 0, reads as the empty string.
  lemma NoStringReads(t: Tree, rest: seq<bool>)
    requires t.Node?
    ensures var record := Compress(LittleEndian(0, 2), true);
            ReadRecord(t, record + rest) == Text([], |record|)
  {
    hide Compress, Decompress, LittleEndian, FromLittleEndian;
    var record := Compress(LittleEndian(0, 2), true);
    RoundTrip(LittleEndian(0, 2), true, rest);
    assert Pow256(2) == 65536;
    LittleEndianBack(0, 2);
    DecodeNothing(t, (record + rest)[|record|..|record|]);
  }

  // The limit is real: 65536 copies of any character are stored with length 0 and come back as nothing.
  lemma LongStringIsLost(t: Tree, c: byte, rest: seq<bool>)
    requires Complete(t)
    ensures var text := seq(65536, _ => c);
            ReadRecord(t, Record(t, text) + rest) == Text([], |Record(t, text)|)
  {
    hide LeafValues, Unambiguous, Encode, ReadRecord, Compress, PaddingBits;
    var text := seq(65536, _ => c);
    assert forall x :: x in Symbols(text) ==> x == c as nat;
    EqualSymbols(t, Symbols(text), c as nat);
    var length := |Encode(t, Symbols(text))|;
    assert length == 65536 * |Code(t, c as nat)|;
    WholeBytes(length, |Code(t, c as nat)|);
    NoPaddingBits(t);
    RecordReads(t, text, rest);
    DecodeNothing(t, EncodedText(t, 0, text)[..0]);
  }

  lemma {:induction false} EqualSymbols(t: Tree, symbols: seq<nat>, c: nat)
    requires c in LeafValues(t) && forall x :: x in symbols ==> x == c
    ensures |Encode(t, symbols)| == |symbols| * |Code(t, c)|
    decreases |symbols|
  {
    hide LeafValues, Code;
    if symbols == [] {
    } else {
      forall x | x in symbols[1..]
        ensures x == c
      {
        assert x in symbols;
      }
      EqualSymbols(t, symbols[1..], c);
      var n, d := |symbols| - 1, |Code(t, c)|;
      assert (n + 1) * d == n * d + d;
      assert symbols[0] in symbols;
    }
  }

  lemma WholeBytes(length: nat, d: nat)
    requires length == 65536 * d
    ensures Padding(length) == 0 && length % 65536 == 0
  {
    assert length == 8 * (8192 * d);
  }

  lemma NoPaddingBits(t: Tree)
    requires Alphabet(t)
    ensures PaddingBits(t, 0) == []
  {
  }

  lemma DecodeNothing(t: Tree, nothing: seq<bool>)
    requires t.Node? && nothing == []
    ensures Decode(t, t, nothing).output == []
  {
  }
}
