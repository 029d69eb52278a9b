/** Texts of bytes and their padded encodings. */
module TextCoding {
  import opened Bytes
  import opened BitStreams
  import opened HuffmanTrees
  import opened Codes
  import opened DepthBound
  import opened CodeTables

  // every byte has a codeword, and no symbol has two
  ghost predicate Complete(t: Tree) {
    Alphabet(t) && |LeafValues(t)| == 256
  }

  lemma BuiltIsComplete(frequencyTable: seq<nat>)
    requires |frequencyTable| == 256
    ensures Complete(BuildTree(frequencyTable))
  {
    BuildTreeAlphabet(frequencyTable);
    BuildTreeSize(frequencyTable);
  }

  // bytes as symbols, and symbols as bytes
  function Symbols(text: seq<byte>): (symbols: seq<nat>)
    ensures |symbols| == |text|
    ensures forall c :: c in symbols ==> c < 256
  {
    seq(|text|, i requires 0 <= i < |text| => text[i] as nat)
  }

  function Characters(symbols: seq<nat>): (text: seq<byte>)
    ensures |text| == |symbols|
  {
    seq(|symbols|, i requires 0 <= i < |symbols| => Character(symbols[i]))
  }

  function Character(c: nat): byte {
    if c < 256 then c as byte else 0
  }

  lemma CharactersOfSymbols(text: seq<byte>)
    ensures Characters(Symbols(text)) == text
  {
  }

  // a symbol written as one whole byte
  lemma CharacterWritten(symbols: seq<nat>, c: nat)
    ensures Payload([Character(c)], 8, true) == AllBits([Character(c)])
    ensures AllBits(Characters(symbols + [c])) == AllBits(Characters(symbols)) + AllBits([Character(c)])
  {
    hide BitAt, Character;
    assert LeftAligned([Character(c)], 8, true) == [Character(c)];
    assert Characters(symbols + [c]) == Characters(symbols) + [Character(c)];
    AllBitsAppend(Characters(symbols), [Character(c)]);
  }

  lemma AllBitsAppend(s: seq<byte>, t: seq<byte>)
    ensures AllBits(s + t) == AllBits(s) + AllBits(t)
  {
    hide BitAt;
    forall p: nat | p < 8 * |s + t|
      ensures Bit(s + t, p) == if p < 8 * |s| then Bit(s, p) else Bit(t, p - 8 * |s|)
    {
    }
  }

  lemma {:induction false} EncodeAppend(t: Tree, text: seq<nat>, c: nat)
    requires (forall x :: x in text ==> x in LeafValues(t)) && c in LeafValues(t)
    ensures Encode(t, text + [c]) == Encode(t, text) + Code(t, c)
    decreases |text|
  {
    hide Code;
    if text == [] {
      assert [c][1..] == [];
      assert text + [c] == [c];
      assert Encode(t, [c]) == Code(t, c) + [];
    } else {
      assert (text + [c])[1..] == text[1..] + [c];
      EncodeAppend(t, text[1..], c);
    }
  }

  // the first symbol from c on whose codeword is longer than n
  function FirstLonger(t: Tree, n: nat, c: nat): (d: nat)
    requires forall x :: c <= x < 256 ==> x in LeafValues(t)
    ensures d >= c && (d < 256 ==> |Code(t, d)| > n)
    ensures forall x :: c <= x < d && x < 256 ==> |Code(t, x)| <= n
    decreases 256 - c
  {
    if c >= 256 || |Code(t, c)| > n then c else FirstLonger(t, n, c + 1)
  }

  // n bits that start a codeword without completing one
  ghost function PaddingBits(t: Tree, n: nat): (bits: seq<bool>)
    requires Alphabet(t)
  {
    var c := FirstLonger(t, n, 0);
    if n == 0 || c >= 256 then [] else Code(t, c)[..n]
  }

  ghost function EncodedText(t: Tree, used: nat, text: seq<byte>): seq<bool>
    requires Alphabet(t)
  {
    var body := Encode(t, Symbols(text));
    body + PaddingBits(t, Padding(used + |body|))
  }

  // A padding of up to seven bits always exists, and it leads to an inner node.
  lemma PaddingIsInner(t: Tree, n: nat)
    requires Complete(t) && n < 8
    ensures |PaddingBits(t, n)| == n && IsPath(t, PaddingBits(t, n)) && At(t, PaddingBits(t, n)).Node?
    ensures n > 0 ==> FirstLonger(t, n, 0) < 256
  {
    hide LeafValues, Unambiguous, Code;
    if n > 0 {
      var d := LongCodeword(t);
      var c := FirstLonger(t, n, 0);
      ProperPrefixIsInner(t, Code(t, c), n);
    }
  }

  // The padding is the start of the first codeword, in the order of the bytes, that is longer than the padding.
  lemma PaddingIs(t: Tree, used: nat, text: seq<byte>) returns (padding: seq<bool>, c: nat)
    requires Complete(t)
    ensures EncodedText(t, used, text) == Encode(t, Symbols(text)) + padding && |padding| < 8
    ensures padding != [] ==> c < 256 && c in LeafValues(t) && padding < Code(t, c) &&
                                forall x :: 0 <= x < c ==> x in LeafValues(t) && |Code(t, x)| <= |padding|
  {
    hide LeafValues, Unambiguous, Code, Encode, IsPath, At;
    var n := Padding(used + |Encode(t, Symbols(text))|);
    PaddingIsInner(t, n);
    padding, c := PaddingBits(t, n), FirstLonger(t, n, 0);
  }

  // The array form of the coder is lossless at every write offset: the encoding ends on a byte
  // boundary, and decoding all of it, padding included, gives exactly the text.
  lemma PaddedRoundTrip(t: Tree, used: nat, text: seq<byte>)
    requires Complete(t)
    ensures (used + |EncodedText(t, used, text)|) % 8 == 0
    ensures Decode(t, t, EncodedText(t, used, text)).output == Symbols(text)
    ensures Characters(Symbols(text)) == text
  {
    hide LeafValues, Unambiguous, Encode, Decode, PaddingBits, IsPath, At;
    var n := Padding(used + |Encode(t, Symbols(text))|);
    PaddingIsInner(t, n);
    DecodeEncode(t, Symbols(text), PaddingBits(t, n));
    CharactersOfSymbols(text);
  }

  // what WriteBits takes from a table entry
  lemma EntryPayload(e: CharacterEncoding, code: seq<bool>, n: nat)
    requires EntryFor(e, code) && n <= |code|
    ensures n <= 8 * |e.encoding| && Payload(e.encoding, n, false) == code[..n]
  {
    hide TakeBits, ZeroFrom, Pack;
    PackBits(code);
    TakeFewer(e.encoding, |code|, n);
  }

  lemma TakeFewer(s: seq<byte>, n: nat, k: nat)
    requires k <= n <= 8 * |s|
    ensures TakeBits(s, k) == TakeBits(s, n)[..k]
    ensures k == 0 ==> TakeBits(s, k) == []
  {
  }

  // a whole codeword leaves the tail clean, and so does padding up to a byte boundary
  lemma EntryTail(used: nat, e: CharacterEncoding, code: seq<bool>, n: nat)
    requires EntryFor(e, code) && n <= |code| && (n == |code| || (used + n) % 8 == 0)
    ensures n <= 8 * |e.encoding| && TailOk(used, e.encoding, n, false)
  {
    hide TakeBits, ZeroFrom, Pack;
    PackBits(code);
    TailOkWhen(used, e.encoding, n, false);
  }
}
