// Whole streams: preamble, then blocks.  The reference decoder, the
// compressed form of an input, and the laws that tie them together.

module Stream {
  import opened Machine
  import opened Lz77
  import opened TagFormat
  import opened Varint
  import opened MatchFinder
  import opened FragmentCode

  // Reference decoder: read the length, decode the elements, and accept if
  // they produced exactly that many bytes.
  function Decode(s: bytes): Option<bytes> {
    match ReadStream(s)
    case None => None
    case Some(h) =>
      StreamFromSize(s, 0, 0);
      match DecodeTags(s[h.size..], [], h.value)
      case None => None
      case Some(out) => if |out| == h.value then Some(out) else None
  }

  // The same with literals as the format description has them.
  function FormatDecode(s: bytes): Option<bytes> {
    match ReadStream(s)
    case None => None
    case Some(h) =>
      StreamFromSize(s, 0, 0);
      match FormatTags(s[h.size..], [], h.value)
      case None => None
      case Some(out) => if |out| == h.value then Some(out) else None
  }

  // Behind the preamble some element has the length field 0xFFFFFFFF.
  predicate BodyHasEmptyLiteral(s: bytes) {
    match ReadStream(s)
    case None => false
    case Some(h) =>
      StreamFromSize(s, 0, 0);
      HasEmptyLiteral(s[h.size..])
  }

  // The decompressor departs from the format on exactly the streams it
  // accepts although they have such an element; the format rejects them.
  lemma FormatDecodeExactly(s: bytes)
    ensures Decode(s) != FormatDecode(s) <==> Decode(s).Some? && BodyHasEmptyLiteral(s)
    ensures FormatDecode(s).Some? ==> Decode(s) == FormatDecode(s)
  {
    hide StreamFrom, HasEmptyLiteral, DecodeTags, FormatTags;
    match ReadStream(s) {
      case None =>
      case Some(h) =>
        StreamFromSize(s, 0, 0);
        FormatTagsExactly(s[h.size..], [], h.value);
    }
  }

  // There are such streams: this one announces no bytes and has none.
  lemma AcceptedEmptyLiteral()
    ensures Decode([0, 0xFC, 0xFF, 0xFF, 0xFF, 0xFF]) == Some([])
    ensures FormatDecode([0, 0xFC, 0xFF, 0xFF, 0xFF, 0xFF]) == None
  {
    hide ParseElement, FormatElement;
    var s: bytes := [0, 0xFC, 0xFF, 0xFF, 0xFF, 0xFF];
    var body := s[1..];
    assert ReadStream(s) == Some(Header(0, 1));
    ReadingsAgree(body);
    WrappedRejected(body, [], 0);
    assert body[5..] == [] && DecodeTags([], [], 0) == Some([]);
    var none: bytes := [];
    assert none + none == none;
    assert DecodeTags(body, [], 0) == Some([]);
  }

  // How blocks are hashed: a table size and a hash function per block length.
  datatype Hashing = Hashing(size: nat -> nat, hash: nat -> HashFunction)

  ghost predicate ValidHashing(h: Hashing) {
    forall n: nat :: HashesInto(h.hash(n), h.size(n))
  }

  ghost function BlockBytes(block: bytes, h: Hashing): bytes
    requires ValidHashing(h) && |block| <= kBlockSize
  {
    FragmentBytes(block, h.hash(|block|), h.size(|block|))
  }

  function BlockLength(n: nat): (b: nat)
    ensures b <= n && b <= kBlockSize && (n > 0 ==> b > 0)
  {
    Min(n, kBlockSize)
  }

  // Consecutive blocks of 65536 bytes, each encoded on its own.
  ghost function BodyBytes(input: bytes, h: Hashing): bytes
    requires ValidHashing(h)
    decreases |input|
  {
    if input == [] then [] else
      var b := BlockLength(|input|);
      BlockBytes(input[..b], h) + BodyBytes(input[b..], h)
  }

  // The length is stored modulo 2^32.
  ghost function CompressedBytes(input: bytes, h: Hashing): bytes
    requires ValidHashing(h)
  {
    Encode32(|input| % 0x1_0000_0000) + BodyBytes(input, h)
  }

  // ------------------------------------------------------------------
  // Round trip
  // ------------------------------------------------------------------

  lemma {:induction false} BodyDecodes(input: bytes, h: Hashing, out: bytes, limit: nat)
    requires ValidHashing(h) && |out| <= limit
    ensures DecodeTags(BodyBytes(input, h), out, limit) ==
            if |out| + |input| <= limit then Some(out + input) else None
    decreases |input|
  {
    hide FragmentBytes, ParseElement;
    if input == [] {
      assert out + input == out;
    } else {
      var b := BlockLength(|input|);
      var block, rest := input[..b], input[b..];
      assert block + rest == input;
      if |out| + b <= limit {
        FragmentDecodes(block, h.hash(b), h.size(b), BodyBytes(rest, h), out, limit);
        BodyDecodes(rest, h, out + block, limit);
        assert (out + block) + rest == out + input;
      } else {
        FragmentRejected(block, h.hash(b), h.size(b), BodyBytes(rest, h), out, limit);
      }
    }
  }

  // Decoding inverts compression for every input whose length fits the
  // header, whatever the hash functions; a longer input is rejected.
  lemma CompressRoundTrip(input: bytes, h: Hashing)
    requires ValidHashing(h)
    ensures Decode(CompressedBytes(input, h)) == Some(input) <==> |input| < 0x1_0000_0000
    ensures |input| >= 0x1_0000_0000 ==> Decode(CompressedBytes(input, h)) == None
  {
    hide DecodeTags, Encode32, ReadStream, BodyBytes;
    var n, body := |input| % 0x1_0000_0000, BodyBytes(input, h);
    var s, head := CompressedBytes(input, h), Encode32(n);
    EncodeRoundTrip(n, body);
    StreamFromSize(s, 0, 0);
    assert s[|head|..] == body;
    BodyDecodes(input, h, [], n);
    assert [] + input == input;
  }

  // The compressor never writes such an element.
  lemma {:induction false} BodyHasNoEmptyLiteral(input: bytes, h: Hashing)
    requires ValidHashing(h)
    ensures ParseAll(BodyBytes(input, h)).Some? && !HasEmptyLiteral(BodyBytes(input, h))
    decreases |input|
  {
    hide FragmentBytes, ParseAll;
    if input == [] {
      NothingParsed();
    } else {
      var b := BlockLength(|input|);
      FragmentParses(input[..b], h.hash(b), h.size(b));
      BodyHasNoEmptyLiteral(input[b..], h);
      ParseAppend(BlockBytes(input[..b], h), BodyBytes(input[b..], h));
    }
  }

  // What the compressor writes therefore is what the format says.
  lemma CompressConforms(input: bytes, h: Hashing)
    requires ValidHashing(h)
    ensures FormatDecode(CompressedBytes(input, h)) == Some(input) <==> |input| < 0x1_0000_0000
  {
    hide Encode32, ReadStream, Decode, FormatDecode, HasEmptyLiteral;
    var n, body := |input| % 0x1_0000_0000, BodyBytes(input, h);
    var s, head := CompressedBytes(input, h), Encode32(n);
    EncodeRoundTrip(n, body);
    assert s[|head|..] == body;
    BodyHasNoEmptyLiteral(input, h);
    FormatDecodeExactly(s);
    CompressRoundTrip(input, h);
  }

  // ------------------------------------------------------------------
  // Size
  // ------------------------------------------------------------------

  lemma {:induction false} BodySize(input: bytes, h: Hashing)
    requires ValidHashing(h)
    ensures |BodyBytes(input, h)| <= |input| + |input| / 6 + 1
    decreases |input|
  {
    hide FragmentBytes;
    if input != [] {
      var b := BlockLength(|input|);
      FragmentSize(input[..b], h.hash(b), h.size(b));
      BodySize(input[b..], h);
    }
  }

  // MaxCompressedLength bounds the compressed form of every input.
  lemma CompressedSize(input: bytes, h: Hashing)
    requires ValidHashing(h)
    ensures |CompressedBytes(input, h)| <= 32 + |input| + |input| / 6
  {
    BodySize(input, h);
  }
}
