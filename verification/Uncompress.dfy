// The public decompression calls.

module Uncompress {
  import opened Machine
  import opened Lz77
  import opened Memory
  import opened Varint
  import opened SinkSource
  import opened ArrayWriters
  import opened IOVecWriters
  import opened Validators
  import opened Writers
  import opened Stream
  import opened TagFormat
  import opened Decompressor

  // What the callers are required to see to, given what the stream's header
  // announces.
  ghost predicate RoomFor(s: bytes, writer: Writer)
    reads writer.Repr()
  {
    match ReadStream(s)
    case None => true
    case Some(h) => writer.HasRoom(h.value)
  }

  // Accepts exactly what the reference decoder accepts and the destination
  // has the space for, whatever the regions of the source, and leaves exactly
  // what the decoder returns in the writer.  The source has moved on, past
  // all of its bytes if the stream was accepted.
  method InternalUncompress(r: Source, writer: Writer) returns (ok: bool)
    requires r.Valid() && r.Narrow() && writer.Unused() && r !in writer.Repr() && RoomFor(r.Rest(), writer)
    modifies r, writer.Repr()
    ensures ok <==> Decode(old(r.Rest())).Some? && writer.Takes(|Decode(old(r.Rest())).value|)
    ensures r.Valid() && EndsWith(old(r.Rest()), r.Rest())
    ensures ok ==> writer.Ready() && Some(writer.Output()) == Decode(old(r.Rest())) && r.Rest() == []
    ensures match ReadStream(old(r.Rest())) {
              case None => writer.Unused()
              case Some(h) => writer.Kept(h.value)
            }
  {
    hide Flatten, Decode, ReadStream, EndsWith, Skipped, RoomFor;
    hide Writer.Output, Writer.Unused, Writer.Kept, Writer.Ready, Writer.Takes;
    hide SnappyDecompressor.Unread, SnappyDecompressor.Buffer, SnappyDecompressor.Valid, SnappyDecompressor.Untouched;
    hide Source.Valid, Source.Narrow, Source.Rest;
    ghost var s := r.Rest();
    r.RestIsEnd();
    var decompressor := new SnappyDecompressor(r);
    ok := UncompressStream(decompressor, writer);
    decompressor.Close();
    r.RestIsEnd();
    EndOfEnd(r.all, s, r.Rest());
  }

  // Preamble and elements, with a decompressor that has not read anything.
  method UncompressStream(decompressor: SnappyDecompressor, writer: Writer) returns (ok: bool)
    requires decompressor.Valid() && decompressor.Untouched() && !decompressor.eof_ && decompressor.Apart(writer)
    requires writer.Unused() && RoomFor(decompressor.reader_.Rest(), writer)
    modifies decompressor, decompressor.scratch_, decompressor.reader_, writer.Repr()
    ensures decompressor.Valid() && |decompressor.reader_.Rest()| <= |old(decompressor.reader_.Rest())|
    ensures var out := Decode(old(decompressor.reader_.Rest()));
            && (ok <==> out.Some? && writer.Takes(|out.value|))
            && (ok ==> writer.Ready() && Some(writer.Output()) == out && decompressor.Unread() == [])
    ensures match ReadStream(old(decompressor.reader_.Rest())) {
              case None => writer.Unused()
              case Some(h) => writer.Kept(h.value)
            }
  {
    hide Flatten, Decode, ReadStream, EndsWith, LengthRead, DecodeAnnounced, Skipped;
    hide Writer.Output, Writer.Unused, Writer.Kept, Writer.HasRoom, Writer.Ready, Writer.Takes, Writer.Fits;
    hide SnappyDecompressor.Unread, SnappyDecompressor.Buffer, SnappyDecompressor.Valid, SnappyDecompressor.Untouched;
    ghost var s := decompressor.reader_.Rest();
    var uncompressedLen := decompressor.ReadUncompressedLength();
    DecodeRead(s, uncompressedLen, decompressor.reader_.Rest());
    if uncompressedLen == None {
      return false;
    }
    ok := InternalUncompressAllTags(decompressor, writer, uncompressedLen.value);
  }

  // The rest of the stream, once its length is known.
  method InternalUncompressAllTags(decompressor: SnappyDecompressor, writer: Writer, uncompressedLen: uint32)
    returns (ok: bool)
    requires decompressor.Valid() && !decompressor.eof_ && decompressor.Apart(writer)
    requires writer.Unused() && writer.HasRoom(uncompressedLen)
    modifies decompressor, decompressor.scratch_, decompressor.reader_, writer.Repr()
    ensures decompressor.Valid() && writer.Kept(uncompressedLen)
    ensures |decompressor.reader_.Rest()| <= |old(decompressor.reader_.Rest())|
    ensures var out := DecodeAnnounced(old(decompressor.Unread()), uncompressedLen);
            && (ok <==> out.Some? && writer.Takes(|out.value|))
            && (ok ==> writer.Ready() && Some(writer.Output()) == out && decompressor.Unread() == [])
  {
    hide Flatten, DecodeTags, EndsWith;
    hide Writer.Ready, Writer.Output, Writer.Limit, Writer.Kept, Writer.Unused, Writer.HasRoom, Writer.Fits;
    hide Writer.Takes, SnappyDecompressor.Unread, SnappyDecompressor.Buffer, SnappyDecompressor.Valid;
    writer.SetExpectedLength(uncompressedLen);
    assert decompressor.Valid();
    decompressor.DecompressAllTags(writer);
    ok := decompressor.eof_;
    if ok {
      ok := writer.CheckLength();
    }
  }

  // What follows a preamble that announces len bytes.
  ghost function DecodeAnnounced(rest: bytes, len: nat): Option<bytes> {
    match DecodeTags(rest, [], len)
    case None => None
    case Some(out) => if |out| == len then Some(out) else None
  }

  lemma DecodeRead(s: bytes, result: Option<uint32>, rest: bytes)
    requires LengthRead(s, result, rest)
    ensures match ReadStream(s) { case None => result == None case Some(h) => result == Some(h.value) }
    ensures Decode(s) == match result { case None => None case Some(len) => DecodeAnnounced(rest, len) }
  {
    hide DecodeTags, StreamFrom;
    if ReadStream(s).Some? {
      StreamFromSize(s, 0, 0);
    }
  }

  // RawUncompress into a flat array.  Nothing outside the announced length
  // is written, even if the stream turns out to be corrupt.
  method RawUncompress(compressed: Source, uncompressed: array<byte>, dst: nat) returns (ok: bool)
    requires compressed.Valid() && compressed.Narrow() && dst <= uncompressed.Length
    requires match ReadStream(compressed.Rest()) {
               case None => true
               case Some(h) => dst + h.value <= uncompressed.Length
             }
    modifies compressed, uncompressed
    ensures ok <==> Decode(old(compressed.Rest())).Some?
    ensures ok ==> var v := Decode(old(compressed.Rest())).value;
                   dst + |v| <= uncompressed.Length && uncompressed[dst..dst + |v|] == v
    ensures match ReadStream(old(compressed.Rest())) {
              case None => uncompressed[..] == old(uncompressed[..])
              case Some(h) =>
                forall i :: 0 <= i < uncompressed.Length && !(dst <= i < dst + h.value) ==>
                  uncompressed[i] == old(uncompressed[i])
            }
  {
    hide Decode, ReadStream, Flatten;
    var a := new SnappyArrayWriter(uncompressed, dst);
    ok := InternalUncompress(compressed, ToArray(a));
  }

  // RawUncompressToIOVec: the buffers, one after the other, start with the
  // output.  Too small buffers are an error; beyond the announced length
  // nothing changes, in the buffers or next to them.
  method RawUncompressToIOVec(compressed: Source, iov: seq<IOVec>) returns (ok: bool)
    requires compressed.Valid() && compressed.Narrow()
    requires Disjoint(iov)
    requires match ReadStream(compressed.Rest()) { case None => true case Some(h) => h.value > 0 ==> iov != [] }
    modifies compressed, Mems(iov)
    ensures ok <==> Decode(old(compressed.Rest())).Some? && |Decode(old(compressed.Rest())).value| <= Capacity(iov)
    ensures ok ==> Decode(old(compressed.Rest())).value <= Gathered(iov, Now(iov))
    ensures match ReadStream(old(compressed.Rest())) {
              case None => Now(iov) == old(Now(iov))
              case Some(h) => Spared(iov, old(Now(iov)), Now(iov), h.value)
            }
  {
    hide Decode, ReadStream, Flatten, Gathered, Spared, Disjoint;
    var v := new SnappyIOVecWriter(iov);
    ok := InternalUncompress(compressed, ToIOVec(v));
  }

  // IsValidCompressedBuffer: true exactly when decompression would succeed.
  method IsValidCompressedBuffer(compressed: bytes) returns (ok: bool)
    requires |compressed| < 0x1_0000_0000
    ensures ok <==> Decode(compressed).Some?
  {
    hide Decode, ReadStream, Flatten;
    var reader := new Source.FromArray(compressed);
    var n := new SnappyDecompressionValidator();
    ok := InternalUncompress(reader, ToNowhere(n));
  }

  // GetUncompressedLength of a flat buffer.
  method GetUncompressedLength(compressed: bytes) returns (result: Option<uint32>)
    ensures result == match ReadFlat(compressed) { case None => None case Some(h) => Some(h.value) }
  {
    var h := Parse32WithLimit(compressed);
    match h {
      case None => result := None;
      case Some(header) => result := Some(header.value);
    }
  }

  // What the string version of Uncompress accepts: the flat reader sizes the
  // string, the streaming reader decodes, so overlong headers are refused.
  function DecodeFlat(s: bytes): Option<bytes> {
    if ReadFlat(s) == None then None else Decode(s)
  }

  // The size the string is given is the size the decoder enforces.
  lemma SizesAgree(s: bytes)
    ensures ReadFlat(s).Some? ==> ReadStream(s) == ReadFlat(s)
    ensures DecodeFlat(s).Some? ==> |DecodeFlat(s).value| == ReadFlat(s).value.value
    ensures DecodeFlat(s) != Decode(s) <==> Overlong(s) && Decode(s).Some?
  {
    ReadersAgree(s);
    if ReadStream(s).Some? {
      StreamFromSize(s, 0, 0);
    }
  }

  // An overlong header makes the difference: as an array this stream is valid
  // and empty, as a string it is refused.
  lemma OverlongAccepted()
    ensures Decode([0x80, 0x80, 0x80, 0x80, 0x10]) == Some([]) && DecodeFlat([0x80, 0x80, 0x80, 0x80, 0x10]) == None
  {
    var s: bytes := [0x80, 0x80, 0x80, 0x80, 0x10];
    assert s[5..] == [];
  }

  // The string version of Uncompress.
  method UncompressString(compressed: bytes, maxSize: nat) returns (result: Option<bytes>)
    requires |compressed| < 0x1_0000_0000
    ensures result == match DecodeFlat(compressed) {
                        case None => None
                        case Some(out) => if |out| <= maxSize then Some(out) else None
                      }
  {
    hide Decode, ReadFlat, ReadStream, Flatten;
    SizesAgree(compressed);
    var ulength := GetUncompressedLength(compressed);
    if ulength == None || ulength.value > maxSize {
      return None;
    }
    var buffer := new byte[ulength.value];
    var reader := new Source.FromArray(compressed);
    var ok := RawUncompress(reader, buffer, 0);
    if ok {
      assert buffer[0..|buffer[..]|] == buffer[..];
      result := Some(buffer[..]);
    } else {
      result := None;
    }
  }
}
