// Compressor and decompressor together.

module Codec {
  import opened Machine
  import opened Lz77
  import opened Varint
  import opened FragmentCompressor
  import opened IOVecWriters
  import opened SinkSource
  import opened Stream
  import opened Compressor
  import opened Uncompress

  // Decompressing what Compress produced gives back the input, for exactly
  // the inputs whose length fits the 32-bit header; a longer one compresses
  // to a stream that is refused.  A decoder that follows the format
  // description to the letter gives it back as well.
  lemma SnappyRoundTrip(input: bytes)
    ensures Decode(Snappy(input)) == Some(input) <==> |input| < 0x1_0000_0000
    ensures |input| >= 0x1_0000_0000 ==> Decode(Snappy(input)) == None
    ensures FormatDecode(Snappy(input)) == Some(input) <==> |input| < 0x1_0000_0000
  {
    hide Decode, FormatDecode, CompressedBytes;
    SnappyHashingValid();
    CompressRoundTrip(input, SnappyHashing());
    CompressConforms(input, SnappyHashing());
  }

  // The header Compress writes is read alike by both readers.
  lemma SnappyHeader(input: bytes)
    ensures ReadStream(Snappy(input)).Some? && ReadFlat(Snappy(input)) == ReadStream(Snappy(input))
    ensures ReadStream(Snappy(input)).value.value == |input| % 0x1_0000_0000
  {
    hide Encode32, ReadFlat, ReadStream, SnappyBody;
    SnappyUnfolds(input);
    EncodeRoundTrip(|input| % 0x1_0000_0000, SnappyBody(input));
  }

  // Compress into a string grown to the maximal size beforehand and cut to
  // the actual one afterwards.
  method CompressString(input: bytes) returns (compressed: bytes)
    ensures compressed == Snappy(input) && |compressed| <= MaxCompressedLength(|input|)
  {
    hide Snappy, MaxCompressedLength;
    var buffer := new byte[MaxCompressedLength(|input|)];
    var compressedLength := RawCompress(input, buffer, 0);
    compressed := buffer[0..compressedLength];
  }

  // The library's own round-trip test: what was compressed is valid, and
  // uncompresses to what was compressed.  The compressed form is one region
  // for the decompressor and must be shorter than 2^32 bytes, which it is for
  // every input of up to kNarrowInput bytes.
  method VerifyString(input: bytes) returns (valid: bool, uncompressed: Option<bytes>)
    requires |input| < 0x1_0000_0000 && |Snappy(input)| < 0x1_0000_0000
    ensures valid && uncompressed == Some(input)
  {
    hide Snappy, Decode, ReadFlat, ReadStream;
    var compressed := CompressString(input);
    SnappyRoundTrip(input);
    SnappyHeader(input);
    valid := IsValidCompressedBuffer(compressed);
    uncompressed := UncompressString(compressed, |input|);
  }

  // The same into scattered buffers, slices of a common array and empty ones
  // included, and with the compressed bytes arriving in any regions.
  method VerifyIOVec(input: bytes, compressed: Source, iov: seq<IOVec>) returns (ok: bool)
    requires |input| < 0x1_0000_0000 && compressed.Valid() && compressed.Narrow() && compressed.Rest() == Snappy(input)
    requires Disjoint(iov) && (input != [] ==> iov != [])
    modifies compressed, Mems(iov)
    ensures ok <==> |input| <= Capacity(iov)
    ensures ok ==> input <= Gathered(iov, Now(iov))
    ensures Spared(iov, old(Now(iov)), Now(iov), |input|)
  {
    hide Snappy, Decode, ReadFlat, ReadStream, Flatten, Gathered, Spared, Disjoint;
    SnappyRoundTrip(input);
    SnappyHeader(input);
    ok := RawUncompressToIOVec(compressed, iov);
  }

  // As in the library's test: the buffers are cut from one array, which holds
  // the input afterwards.
  method VerifyCutIOVec(input: bytes, compressed: Source, buf: array<byte>, iov: seq<IOVec>) returns (ok: bool)
    requires |input| < 0x1_0000_0000 && compressed.Valid() && compressed.Narrow() && compressed.Rest() == Snappy(input)
    requires CutFrom(iov, buf) && |input| <= Capacity(iov)
    modifies compressed, buf
    ensures ok && buf[..|input|] == input
    ensures forall p :: |input| <= p < buf.Length ==> buf[p] == old(buf[p])
  {
    hide Snappy, Gathered, Disjoint, Capacity, Spared;
    CutsAreDisjoint(iov, buf);
    CutMems(iov, buf);
    ghost var before := Now(iov);
    ok := VerifyIOVec(input, compressed, iov);
    CutsGathered(iov, buf, Now(iov), buf[..]);
    CutsSpared(iov, buf, before, Now(iov), |input|);
  }
}
