// The decompressor: a state machine over the regions of a source, with a
// five-byte buffer in which tags that straddle regions are stitched together.

module Decompressor {
  import opened Machine
  import opened Lz77
  import opened Memory
  import opened TagTable
  import opened TagFormat
  import opened Varint
  import opened SinkSource
  import opened ArrayWriters
  import opened Writers

  class SnappyDecompressor {
    const reader_: Source
    const scratch_: array<byte>
    // The region of the reader that ip_ points into, unless it points into
    // scratch_.
    var region: bytes
    var inScratch: bool
    var ip_: nat
    var ipLimit_: nat
    var peeked_: uint32
    var eof_: bool

    ghost predicate Valid()
      reads this, scratch_, reader_
    {
      && scratch_.Length == kMaximumTagLength
      && reader_.Valid() && reader_.Narrow()
      && ip_ <= ipLimit_
      && (inScratch ==> ipLimit_ <= kMaximumTagLength && peeked_ == 0)
      && (!inScratch ==> ipLimit_ == |region| == peeked_ && region <= reader_.Rest())
    }

    // The memory ip_ points into.
    function Buffer(): bytes
      reads this, scratch_
    {
      if inScratch then scratch_[..] else region
    }

    // Every byte not yet decoded: what is buffered, then what the reader has
    // beyond the bytes that were only peeked at.
    ghost function Unread(): bytes
      requires Valid()
      reads this, scratch_, reader_
    {
      Buffer()[ip_..ipLimit_] + reader_.Rest()[peeked_..]
    }

    // The next tag and its extra bytes are buffered, and five bytes from the
    // tag can be read even if fewer belong to the input.
    ghost predicate TagReady()
      requires Valid()
      reads this, scratch_, reader_
    {
      && ip_ < ipLimit_ && ip_ + kMaximumTagLength <= |Buffer()|
      && ip_ + 1 + ExtraOf(Buffer()[ip_]) <= ipLimit_
    }

    // Nothing has been read through ip_ yet.
    ghost predicate Untouched()
      reads this
    {
      !inScratch && region == [] && ip_ == ipLimit_ && peeked_ == 0
    }

    constructor (reader: Source)
      requires reader.Valid() && reader.Narrow()
      ensures reader_ == reader && fresh(scratch_) && Valid() && !eof_
      ensures Unread() == reader.Rest() && Untouched()
    {
      hide EndsWith;
      reader_ := reader;
      scratch_ := new byte[kMaximumTagLength];
      region, inScratch, ip_, ipLimit_, peeked_, eof_ := [], false, 0, 0, 0, false;
    }

    // The destructor: move the reader past what was peeked at.
    method Close()
      requires Valid()
      modifies reader_
      ensures reader_.Valid() && |reader_.Rest()| <= |old(reader_.Rest())|
      ensures Skipped(old(reader_.Rest()), peeked_, reader_.Rest())
      ensures old(Unread()) == [] ==> reader_.Rest() == []
    {
      hide EndsWith;
      reader_.Skip(peeked_);
    }

    // Fetch the next region; false if there is none.
    method NextRegion() returns (ok: bool)
      requires Valid() && ip_ == ipLimit_
      modifies this, reader_
      ensures |reader_.Rest()| <= |old(reader_.Rest())|
      ensures Valid() && Unread() == old(Unread()) && eof_ == old(eof_)
      ensures !inScratch && ip_ == 0 && (ok <==> region != []) && (ok <==> Unread() != [])
    {
      hide EndsWith;
      ghost var rest := reader_.Rest();
      reader_.Skip(peeked_);
      region := reader_.Peek();
      inScratch, ip_, ipLimit_, peeked_ := false, 0, |region|, |region|;
      SplitAt(reader_.Rest(), region);
      ok := |region| != 0;
    }

    // Make the next tag available.  False means the end of the input, which
    // sets eof_, or an incomplete tag, which does not.
    method RefillTag() returns (ok: bool)
      requires Valid() && !eof_
      modifies this, scratch_, reader_
      ensures |reader_.Rest()| <= |old(reader_.Rest())|
      ensures Valid() && (ok ==> Unread() == old(Unread()) && TagReady() && !eof_)
      ensures !ok ==> (eof_ <==> old(Unread()) == []) && (eof_ ==> Unread() == [])
      ensures !ok && !eof_ ==> ParseElement(old(Unread())) == None
    {
      hide Flatten, EndsWith, ParseElement, CharTable;
      if ip_ == ipLimit_ {
        var more := NextRegion();
        if !more {
          eof_ := true;
          return false;
        }
      }
      ok := BufferTag();
    }

    // Read the tag character and see to it that its extra bytes are at hand.
    method BufferTag() returns (ok: bool)
      requires Valid() && ip_ < ipLimit_
      modifies this, scratch_, reader_
      ensures |reader_.Rest()| <= |old(reader_.Rest())|
      ensures Valid() && (ok ==> Unread() == old(Unread()) && TagReady())
      ensures eof_ == old(eof_) && old(Unread()) != []
      ensures !ok ==> ParseElement(old(Unread())) == None
    {
      hide Flatten, EndsWith, ParseElement, CharTable;
      var c := Buffer()[ip_];
      TableFields(c);
      var needed := ExtraBytes(c) + 1;
      var nbuf := ipLimit_ - ip_;
      if nbuf < needed {
        ok := Stitch(needed);
      } else {
        if nbuf < kMaximumTagLength {
          MoveToScratch();
        }
        ok := true;
      }
    }

    // Few bytes are left, but enough: move them to where five can be read.
    method MoveToScratch()
      requires Valid() && ip_ < ipLimit_ && ipLimit_ - ip_ < kMaximumTagLength
      modifies this, scratch_, reader_
      ensures |reader_.Rest()| <= |old(reader_.Rest())|
      ensures Valid() && Unread() == old(Unread()) && eof_ == old(eof_)
      ensures inScratch && ip_ == 0 && ipLimit_ == old(ipLimit_ - ip_) && scratch_[0] == old(Buffer()[ip_])
    {
      hide EndsWith;
      var data := Buffer()[ip_..ipLimit_];
      Memcpy(scratch_, 0, data);
      assert scratch_[..|data|] == data && scratch_[0] == data[0];
      ghost var rest := reader_.Rest()[peeked_..];
      reader_.Skip(peeked_);
      inScratch, ip_, ipLimit_, peeked_ := true, 0, |data|, 0;
      assert reader_.Rest()[0..] == rest;
      assert scratch_[..][0..|data|] == data;
      assert Unread() == data + rest;
    }

    // Take n bytes of the reader's next region into the scratch buffer.
    method AddToScratch(nbuf: nat, src: bytes, n: nat)
      requires Valid() && inScratch && 0 < n <= |src| && src <= reader_.Rest() && 0 < nbuf &&
               nbuf + n <= kMaximumTagLength
      modifies scratch_, reader_
      ensures |reader_.Rest()| <= |old(reader_.Rest())|
      ensures Valid()
      ensures scratch_[..nbuf + n] + reader_.Rest() == old(scratch_[..nbuf] + reader_.Rest()) &&
              scratch_[0] == old(scratch_[0])
    {
      hide Flatten, EndsWith;
      ghost var before, rest := scratch_[..nbuf], reader_.Rest();
      MoveAcross(before, rest, n);
      assert rest[..n] == src[..n];
      Memcpy(scratch_, nbuf, src[..n]);
      assert scratch_[..nbuf + n] == before + src[..n];
      reader_.Skip(n);
    }

    // Fill the scratch buffer up to the needed bytes.
    method FillScratch(nbuf0: nat, needed: nat, ghost unread: bytes) returns (ok: bool)
      requires Valid() && inScratch && ip_ == 0 && peeked_ == 0 && 0 < nbuf0 <= needed <= kMaximumTagLength
      requires scratch_[..nbuf0] + reader_.Rest() == unread
      modifies scratch_, reader_
      ensures |reader_.Rest()| <= |old(reader_.Rest())|
      ensures Valid() && scratch_[0] == old(scratch_[0])
      ensures ok ==> scratch_[..needed] + reader_.Rest() == unread
      ensures !ok ==> |unread| < needed
    {
      hide Flatten, EndsWith;
      var nbuf := nbuf0;
      while nbuf < needed
        invariant nbuf0 <= nbuf <= needed && Valid() && scratch_[0] == old(scratch_[0])
        invariant |reader_.Rest()| <= |old(reader_.Rest())|
        invariant scratch_[..nbuf] + reader_.Rest() == unread
      {
        var src := reader_.Peek();
        if |src| == 0 {
          return false;
        }
        var toAdd := Min(needed - nbuf, |src|);
        AddToScratch(nbuf, src, toAdd);
        nbuf := nbuf + toAdd;
      }
      ok := true;
    }

    // Stitch a tag together from the buffered bytes and as many regions of
    // the reader as it takes.
    method Stitch(needed: nat) returns (ok: bool)
      requires Valid() && ip_ < ipLimit_ && ipLimit_ - ip_ < needed == 1 + ExtraOf(Buffer()[ip_]) <= kMaximumTagLength
      modifies this, scratch_, reader_
      ensures |reader_.Rest()| <= |old(reader_.Rest())|
      ensures Valid() && (ok ==> Unread() == old(Unread()) && TagReady())
      ensures eof_ == old(eof_) && old(Unread()) != []
      ensures !ok ==> ParseElement(old(Unread())) == None
    {
      hide Flatten, EndsWith, ParseElement, ExtraOf;
      ghost var unread, c := Unread(), Buffer()[ip_];
      assert unread[0] == c;
      MoveToScratch();
      var nbuf := ipLimit_;
      assert reader_.Rest()[0..] == reader_.Rest() && scratch_[..][0..nbuf] == scratch_[..nbuf];
      ok := FillScratch(nbuf, needed, unread);
      if !ok {
        ShortTag(unread);
        return;
      }
      ipLimit_ := needed;
      assert reader_.Rest()[0..] == reader_.Rest();
      assert scratch_[..][0..needed] == scratch_[..needed];
    }

    // MAYBE_REFILL: nothing to do while five bytes are buffered.
    method MaybeRefill() returns (ok: bool)
      requires Valid() && !eof_
      modifies this, scratch_, reader_
      ensures |reader_.Rest()| <= |old(reader_.Rest())|
      ensures Valid() && (ok ==> Unread() == old(Unread()) && TagReady() && !eof_)
      ensures !ok ==> (eof_ <==> old(Unread()) == []) && (eof_ ==> Unread() == [])
      ensures !ok && !eof_ ==> ParseElement(old(Unread())) == None
    {
      hide ParseElement;
      if ipLimit_ - ip_ < kMaximumTagLength {
        ok := RefillTag();
      } else {
        ok := true;
      }
    }

    // Read the length at the start of the stream, byte by byte.
    method ReadUncompressedLength() returns (result: Option<uint32>)
      requires Valid() && Untouched()
      modifies reader_
      ensures |reader_.Rest()| <= |old(reader_.Rest())|
      ensures Valid() && Unread() == reader_.Rest()
      ensures LengthRead(old(reader_.Rest()), result, reader_.Rest())
    {
      hide Flatten, EndsWith, StreamFrom, Weight, Pow2;
      ghost var start := reader_.Rest();
      Weights();
      var value: nat, shift, k := 0, 0, 0;
      StreamUnfolds(start, 0, 0);
      while true
        invariant Valid() && 0 <= k <= 5 && shift == 7 * k && k <= |start| && reader_.Rest() == start[k..]
        invariant value < if k < 5 then Weight(k) else 0x1_0000_0000
        invariant ReadStream(start) == StreamFrom(start, k, value)
        decreases 5 - k
      {
        StreamUnfolds(start, k, value);
        if shift >= 32 {
          return None;
        }
        var ip := reader_.Peek();
        if |ip| == 0 {
          return None;
        }
        var c := ip[0];
        assert c == start[k..][0] == start[k];
        reader_.Skip(1);
        WeightIsShift(k);
        value := value + c % 0x80 * Pow2(shift) % 0x1_0000_0000;
        k := k + 1;
        if c < 0x80 {
          return Some(value);
        }
        shift := shift + 7;
      }
    }

    // Append the next len bytes of the input, which may span many regions.
    // True iff the input has them and the writer has room for them.
    method AppendLiteral(writer: Writer, len: nat) returns (ok: bool)
      requires Valid() && !eof_ && writer.Ready() && writer.Kept(writer.Limit()) && Apart(writer)
      modifies this, reader_, writer.Repr()
      ensures |reader_.Rest()| <= |old(reader_.Rest())|
      ensures Valid() && !eof_ && writer.Kept(old(writer.Limit()))
      ensures old(writer.Fits()) ==>
                (ok <==> len <= |old(Unread())| && |old(writer.Output())| + len <= old(writer.Limit()))
      ensures ok ==> writer.Ready() && writer.Limit() == old(writer.Limit()) && writer.Fits() == old(writer.Fits())
      ensures ok ==> len <= |old(Unread())| && Unread() == old(Unread())[len..]
      ensures ok && old(writer.Fits()) ==> writer.Output() == old(writer.Output()) + old(Unread())[..len]
    {
      hide Flatten, EndsWith, SnappyDecompressor.Unread, SnappyDecompressor.Buffer, Writer.Ready;
      hide Writer.Output, Writer.Limit, Writer.Kept, Writer.Fits, Writer.Unused, Appended;
      ghost var start, out0, limit, fits := Unread(), writer.Output(), writer.Limit(), writer.Fits();
      var left: nat := len;
      AppendedNothing(start, out0, fits);
      while ipLimit_ - ip_ < left
        invariant Valid() && !eof_ && writer.Ready() && writer.Limit() == limit && writer.Kept(limit) && Apart(writer)
        invariant writer.Fits() == fits && |reader_.Rest()| <= |old(reader_.Rest())|
        invariant left <= len && Appended(start, out0, len - left, Unread(), writer.Output(), fits)
        decreases |Unread()|, ipLimit_ == ip_
      {
        var avail := ipLimit_ - ip_;
        ok := AppendRegion(writer, start, len - left, out0);
        if !ok {
          return false;
        }
        left := left - avail;
      }
      ok := Append(writer, left, start, len - left, out0);
      if ok {
        AppendedFacts(start, out0, len, Unread(), writer.Output(), fits);
      }
    }

    // Append all that is buffered and fetch the next region.
    method AppendRegion(writer: Writer, ghost start: bytes, ghost k: nat, ghost out0: bytes) returns (ok: bool)
      requires Valid() && !eof_ && writer.Ready() && writer.Kept(writer.Limit()) && Apart(writer)
      requires Appended(start, out0, k, Unread(), writer.Output(), writer.Fits())
      modifies this, reader_, writer.Repr()
      ensures |reader_.Rest()| <= |old(reader_.Rest())|
      ensures Valid() && !eof_ && writer.Kept(old(writer.Limit()))
      ensures old(writer.Fits()) ==>
                (ok <==> |out0| + k + old(ipLimit_ - ip_) <= old(writer.Limit()) && k + old(ipLimit_ - ip_) < |start|)
      ensures k + old(ipLimit_ - ip_) <= |start|
      ensures ok ==> writer.Ready() && writer.Limit() == old(writer.Limit()) && writer.Fits() == old(writer.Fits())
      ensures ok ==> ip_ < ipLimit_
      ensures ok ==> Appended(start, out0, k + old(ipLimit_ - ip_), Unread(), writer.Output(), writer.Fits())
      ensures ok ==> |Unread()| == |old(Unread())| - old(ipLimit_ - ip_)
    {
      hide Flatten, EndsWith, SnappyDecompressor.Unread, SnappyDecompressor.Buffer, Writer.Ready;
      hide Writer.Output, Writer.Limit, Writer.Kept, Writer.Fits, Writer.Unused, Appended;
      var avail := ipLimit_ - ip_;
      AppendedFacts(start, out0, k, Unread(), writer.Output(), writer.Fits());
      ok := Append(writer, avail, start, k, out0);
      if !ok {
        return false;
      }
      AppendedFacts(start, out0, k + avail, Unread(), writer.Output(), writer.Fits());
      ok := NextRegion();
    }

    // Append the next n buffered bytes, of a literal of which k bytes are
    // written already.
    method Append(writer: Writer, n: nat, ghost start: bytes, ghost k: nat, ghost out0: bytes) returns (ok: bool)
      requires Valid() && n <= ipLimit_ - ip_ && writer.Ready() && writer.Kept(writer.Limit()) && Apart(writer)
      requires Appended(start, out0, k, Unread(), writer.Output(), writer.Fits())
      modifies this`ip_, writer.Repr()
      ensures Valid() && k + n <= |start| && writer.Kept(old(writer.Limit()))
      ensures old(writer.Fits()) ==> (ok <==> |out0| + k + n <= old(writer.Limit()))
      ensures ok ==> writer.Ready() && writer.Limit() == old(writer.Limit()) && writer.Fits() == old(writer.Fits())
      ensures ok ==> ip_ == old(ip_) + n
      ensures ok ==> Appended(start, out0, k + n, Unread(), writer.Output(), writer.Fits())
      ensures !ok ==> Unread() == old(Unread())
    {
      hide Flatten, EndsWith, Writer.Ready, Writer.Output, Writer.Limit, Writer.Kept, Writer.Fits;
      hide Writer.Unused, Appended;
      ghost var before, unread, fits := writer.Output(), Unread(), writer.Fits();
      var data := Buffer()[ip_..ip_ + n];
      AppendedFacts(start, out0, k, unread, before, fits);
      assert data == unread[..n] by {
        assert unread == Buffer()[ip_..ipLimit_] + reader_.Rest()[peeked_..];
      }
      ok := writer.Append(data);
      assert Unread() == unread;
      if ok {
        AppendMore(start, out0, k, unread, before, n, writer.Output(), fits);
        Advance(n);
      }
    }

    // How decoding s onto out stands: it continues with what is unread and
    // what is written, it has reached the end of the input, or it has failed.
    // With too little space for the announced output nothing is said of it.
    ghost predicate Stands(s: bytes, out: bytes, limit: nat, fits: bool, ok: bool, writer: Writer)
      reads this, scratch_, reader_, writer.Repr()
    {
      writer.Kept(limit) && Valid() &&
      if ok then
        && !eof_ && TagReady() && writer.Ready() && writer.Limit() == limit && writer.Fits() == fits
        && (fits ==> DecodeTags(s, out, limit) == DecodeTags(Unread(), writer.Output(), limit))
      else if eof_ then
        && Unread() == [] && writer.Ready() && writer.Limit() == limit && writer.Fits() == fits
        && (fits ==> DecodeTags(s, out, limit) == Some(writer.Output()))
      else
        fits ==> DecodeTags(s, out, limit) == None
    }

    // The end of every branch: refill, and see how decoding stands.
    method Continue(writer: Writer) returns (ok: bool)
      requires Valid() && !eof_ && writer.Ready() && writer.Kept(writer.Limit()) && Apart(writer)
      modifies this, scratch_, reader_
      ensures |reader_.Rest()| <= |old(reader_.Rest())|
      ensures Stands(old(Unread()), old(writer.Output()), old(writer.Limit()), old(writer.Fits()), ok, writer)
      ensures ok ==> Unread() == old(Unread())
    {
      hide Flatten, EndsWith, Writer.Ready, Writer.Output, Writer.Limit, Writer.Kept, Writer.Fits;
      hide Writer.Unused, ParseElement, DecodeTags;
      hide SnappyDecompressor.Unread, SnappyDecompressor.Buffer, SnappyDecompressor.TagReady;
      ghost var s, out, limit := Unread(), writer.Output(), writer.Limit();
      ok := MaybeRefill();
      DecodeEnd(s, out, limit);
    }

    // A literal whose tag c has just been read.
    method DecompressLiteral(writer: Writer, c: byte, ghost start: bytes) returns (ok: bool)
      requires Valid() && !eof_ && writer.Ready() && writer.Kept(writer.Limit()) && Apart(writer) && c % 4 == 0
      requires start != [] && start[0] == c && Unread() == start[1..]
      requires ip_ + 4 <= |Buffer()| && ip_ + ExtraOf(c) <= ipLimit_
      modifies this, scratch_, reader_, writer.Repr()
      ensures |reader_.Rest()| <= |old(reader_.Rest())|
      ensures Stands(start, old(writer.Output()), old(writer.Limit()), old(writer.Fits()), ok, writer)
      ensures ok ==> |Unread()| < |start|
    {
      hide Flatten, EndsWith, Writer.Ready, Writer.Output, Writer.Limit, Writer.Kept, Writer.Fits;
      hide Writer.Unused, ParseElement, DecodeTags, Load, Pow2;
      ghost var out0, limit := writer.Output(), writer.Limit();
      var fast := writer.TryFastAppend(Buffer()[ip_..ipLimit_], c / 4 + 1);
      if fast {
        ok := AcceptFast(writer, c / 4 + 1, start, out0);
        return;
      }
      ok := DecompressAnyLiteral(writer, c, start);
    }

    // Without the fast path.
    method DecompressAnyLiteral(writer: Writer, c: byte, ghost start: bytes) returns (ok: bool)
      requires Valid() && !eof_ && writer.Ready() && writer.Kept(writer.Limit()) && Apart(writer) && c % 4 == 0
      requires start != [] && start[0] == c && Unread() == start[1..]
      requires ip_ + 4 <= |Buffer()| && ip_ + ExtraOf(c) <= ipLimit_
      modifies this, scratch_, reader_, writer.Repr()
      ensures |reader_.Rest()| <= |old(reader_.Rest())|
      ensures Stands(start, old(writer.Output()), old(writer.Limit()), old(writer.Fits()), ok, writer)
      ensures ok ==> |Unread()| < |start|
    {
      hide Flatten, EndsWith, Writer.Ready, Writer.Output, Writer.Limit, Writer.Kept, Writer.Fits;
      hide Writer.Unused, ParseElement, DecodeTags, Load, Pow2;
      hide SnappyDecompressor.Unread, SnappyDecompressor.TagReady;
      ghost var out0, limit := writer.Output(), writer.Limit();
      var literalLength := ReadLiteralLength(c, start);
      ghost var rest := Unread();
      LiteralParses(start, rest, out0, limit, literalLength);
      ok := AppendLiteral(writer, literalLength);
      if ok {
        ok := Continue(writer);
      }
    }

    // The length of a literal: in the tag, or in the one to four bytes after
    // it, plus one in 32-bit arithmetic.
    method ReadLiteralLength(c: byte, ghost start: bytes) returns (literalLength: nat)
      requires Valid() && c % 4 == 0 && ip_ + 4 <= |Buffer()| && ip_ + ExtraOf(c) <= ipLimit_
      requires start != [] && start[0] == c && Unread() == start[1..]
      modifies this`ip_
      ensures Valid() && Unread() == start[1 + ExtraOf(c)..]
      ensures 1 + ExtraOf(c) <= |start|
      ensures literalLength == LiteralLength(start)
    {
      hide Flatten, EndsWith, Load, Pow2;
      assert Unread() == Buffer()[ip_..ipLimit_] + reader_.Rest()[peeked_..];
      literalLength := c / 4 + 1;
      if literalLength >= 61 {
        var lengthBytes := literalLength - 60;
        TrailerIsExtra(start, Buffer(), ip_, ipLimit_, lengthBytes);
        literalLength := (Load(Buffer(), ip_, 4) % Pow2(8 * lengthBytes) + 1) % 0x1_0000_0000;
        Advance(lengthBytes);
      }
    }

    // After a fast append: five bytes are still buffered, no refill needed.
    method AcceptFast(writer: Writer, n: nat, ghost start: bytes, ghost out0: bytes) returns (ok: bool)
      requires Valid() && !eof_ && writer.Ready() && writer.Kept(writer.Limit()) && Apart(writer) && 0 < n <= 16 &&
               ip_ + n + kMaximumTagLength <= ipLimit_
      requires start != [] && start[0] % 4 == 0 && start[0] / 4 + 1 == n && Unread() == start[1..]
      requires writer.Fits() ==>
                 Some(writer.Output()) == Step(out0, writer.Limit(), Literal(Buffer()[ip_..ipLimit_][..n]))
      modifies this`ip_
      ensures Stands(start, out0, old(writer.Limit()), old(writer.Fits()), ok, writer)
      ensures ok ==> |Unread()| < |start|
    {
      hide Flatten, EndsWith, Writer.Ready, Writer.Output, Writer.Limit, Writer.Kept, Writer.Fits;
      hide Writer.Unused, ParseElement, DecodeTags;
      assert Buffer()[ip_..ipLimit_][..n] == Buffer()[ip_..ip_ + n];
      Advance(n);
      LiteralParses(start, start[1..], out0, writer.Limit(), n);
      ok := true;
    }

    // Step over n buffered bytes.
    method Advance(n: nat)
      requires Valid() && ip_ + n <= ipLimit_
      modifies this`ip_
      ensures Valid() && ip_ == old(ip_) + n && n <= |old(Unread())| && Unread() == old(Unread())[n..]
      ensures old(Unread())[..n] == Buffer()[old(ip_)..ip_]
    {
      hide EndsWith;
      ghost var unread := Unread();
      assert unread == Buffer()[ip_..ipLimit_] + reader_.Rest()[peeked_..];
      assert unread[..n] == Buffer()[ip_..ipLimit_][..n] == Buffer()[ip_..ip_ + n];
      ip_ := ip_ + n;
      assert Unread() == unread[n..];
    }

    // Offset and length of a copy.
    method ReadCopy(c: byte, ghost start: bytes) returns (offset: uint32, length: nat)
      requires Valid() && c % 4 != 0 && ip_ + 4 <= |Buffer()| && ip_ + ExtraOf(c) <= ipLimit_
      requires start != [] && start[0] == c && Unread() == start[1..]
      modifies this`ip_
      ensures Valid() && 1 + ExtraOf(c) <= |start| && Unread() == start[1 + ExtraOf(c)..]
      ensures offset == HighOffset(c) + Load(start, 1, ExtraOf(c)) && length == LengthOf(c) > 0
    {
      hide Flatten, EndsWith, Load, Pow2, CharTable;
      TableFields(c);
      assert Unread() == Buffer()[ip_..ipLimit_] + reader_.Rest()[peeked_..];
      TrailerIsExtra(start, Buffer(), ip_, ipLimit_, ExtraBytes(c));
      OffsetFits(start);
      var trailer := Load(Buffer(), ip_, 4) % Pow2(8 * ExtraBytes(c));
      length := EntryLength(c);
      Advance(ExtraBytes(c));
      var copyOffset := EntryOffset(c);
      offset := copyOffset + trailer;
    }

    // A copy whose tag c has just been read.
    method DecompressCopy(writer: Writer, c: byte, ghost start: bytes) returns (ok: bool)
      requires Valid() && !eof_ && writer.Ready() && writer.Kept(writer.Limit()) && Apart(writer) && c % 4 != 0
      requires start != [] && start[0] == c && Unread() == start[1..]
      requires ip_ + 4 <= |Buffer()| && ip_ + ExtraOf(c) <= ipLimit_
      modifies this, scratch_, reader_, writer.Repr()
      ensures |reader_.Rest()| <= |old(reader_.Rest())|
      ensures Stands(start, old(writer.Output()), old(writer.Limit()), old(writer.Fits()), ok, writer)
      ensures ok ==> |Unread()| < |start|
    {
      hide Flatten, EndsWith, Writer.Ready, Writer.Output, Writer.Limit, Writer.Kept, Writer.Fits;
      hide Writer.Unused, ParseElement, DecodeTags, Load, Step;
      hide SnappyDecompressor.Unread, SnappyDecompressor.TagReady;
      ghost var out0, limit := writer.Output(), writer.Limit();
      var offset, length := ReadCopy(c, start);
      CopyParses(start, out0, limit);
      StepMeans(out0, limit, [], offset, length);
      ok := writer.AppendFromSelf(offset, length);
      if ok {
        ok := Continue(writer);
      }
    }

    // Execute the element at the front of the input and make the next tag
    // available.
    method DecompressTag(writer: Writer) returns (ok: bool)
      requires Valid() && !eof_ && TagReady() && writer.Ready() && writer.Kept(writer.Limit()) && Apart(writer)
      modifies this, scratch_, reader_, writer.Repr()
      ensures |reader_.Rest()| <= |old(reader_.Rest())|
      ensures Stands(old(Unread()), old(writer.Output()), old(writer.Limit()), old(writer.Fits()), ok, writer)
      ensures ok ==> |Unread()| < |old(Unread())|
    {
      hide Flatten, EndsWith, Writer.Ready, Writer.Output, Writer.Limit, Writer.Kept, Writer.Fits;
      hide Writer.Unused, DecodeTags, Stands;
      ghost var start := Unread();
      assert start == Buffer()[ip_..ipLimit_] + reader_.Rest()[peeked_..];
      var c := Buffer()[ip_];
      ip_ := ip_ + 1;
      assert Unread() == start[1..] && start[0] == c;
      if c % 4 == 0 {
        ok := DecompressLiteral(writer, c, start);
      } else {
        ok := DecompressCopy(writer, c, start);
      }
    }

    // Decode everything: what happens depends on the bytes of the input only,
    // not on the regions they arrive in, and is what the reference decoder
    // says.
    method DecompressAllTags(writer: Writer)
      requires Valid() && !eof_ && writer.Ready() && writer.Kept(writer.Limit()) && Apart(writer)
      modifies this, scratch_, reader_, writer.Repr()
      ensures |reader_.Rest()| <= |old(reader_.Rest())|
      ensures Valid() && writer.Kept(old(writer.Limit()))
      ensures eof_ ==> Unread() == [] && writer.Ready()
      ensures eof_ ==> writer.Limit() == old(writer.Limit()) && writer.Fits() == old(writer.Fits())
      ensures old(writer.Fits()) ==>
                DecodeTags(old(Unread()), old(writer.Output()), old(writer.Limit())) ==
                if eof_ then Some(writer.Output()) else None
    {
      hide Flatten, EndsWith, Writer.Ready, Writer.Output, Writer.Limit, Writer.Kept, Writer.Fits;
      hide Writer.Unused, DecodeTags;
      ghost var start, out0, limit, fits := Unread(), writer.Output(), writer.Limit(), writer.Fits();
      var more := Continue(writer);
      while more
        invariant Stands(start, out0, limit, fits, more, writer)
        invariant |reader_.Rest()| <= |old(reader_.Rest())|
        decreases if more then 1 + |Unread()| else 0
      {
        more := DecompressTag(writer);
      }
    }

    // The decompressor's own state and the writer's do not overlap.
    ghost predicate Apart(writer: Writer)
    {
      this !in writer.Repr() && scratch_ !in writer.Repr() && reader_ !in writer.Repr()
    }
  }

  // The preamble of s announces a length, and rest follows it; or it has none.
  ghost predicate LengthRead(s: bytes, result: Option<uint32>, rest: bytes) {
    match ReadStream(s)
    case None => result == None
    case Some(h) => result == Some(h.value) && Skipped(s, h.size, rest)
  }

  lemma DecodeEnd(s: bytes, out: bytes, limit: nat)
    ensures s == [] ==> DecodeTags(s, out, limit) == Some(out)
    ensures s != [] && ParseElement(s) == None ==> DecodeTags(s, out, limit) == None
  {}

  // The four bytes loaded after a tag, masked, are the tag's extra bytes,
  // whatever lies beyond the end of the buffered input.
  lemma TrailerIsExtra(start: bytes, buffer: bytes, ip: nat, ipLimit: nat, extra: nat)
    requires ip + extra <= ipLimit <= |buffer| && ip + 4 <= |buffer| && extra <= 4
    requires start != [] && buffer[ip..ipLimit] <= start[1..]
    ensures Load(buffer, ip, 4) % Pow2(8 * extra) == Load(start, 1, extra)
  {
    hide Load, Pow2;
    LoadMaskShift(buffer, ip, 4, extra);
    assert buffer[ip..ip + extra] == buffer[ip..ipLimit][..extra] == start[1..][..extra] == start[1..1 + extra];
    LoadLocal(buffer, ip, start, 1, extra);
  }

  // Decoding a stream that starts with a literal of len bytes, of which rest
  // follows the tag and the length bytes.
  lemma LiteralParses(start: bytes, rest: bytes, out: bytes, limit: nat, len: nat)
    requires start != [] && start[0] % 4 == 0 && 1 + ExtraOf(start[0]) <= |start| &&
             rest == start[1 + ExtraOf(start[0])..]
    requires len == LiteralLength(start)
    ensures DecodeTags(start, out, limit) ==
            if len <= |rest| && |out| + len <= limit then DecodeTags(rest[len..], out + rest[..len], limit) else None
  {
    hide ParseElement, LiteralLength, ExtraOf;
    var size := 1 + ExtraOf(start[0]);
    LiteralElement(start, size, len);
    if len <= |rest| {
      assert rest[..len] == start[size..size + len] && rest[len..] == start[size + len..];
    }
  }

  lemma OffsetFits(s: bytes)
    requires s != [] && 1 + ExtraOf(s[0]) <= |s| && s[0] % 4 != 0
    ensures HighOffset(s[0]) + Load(s, 1, ExtraOf(s[0])) < 0x1_0000_0000
  {
    hide Load, Pow2;
    LoadBound(s, 1, ExtraOf(s[0]));
    Pow2Values();
    Pow2Monotone(8 * ExtraOf(s[0]), 32);
  }

  // Decoding a stream that starts with a copy.
  lemma CopyParses(start: bytes, out: bytes, limit: nat)
    requires start != [] && start[0] % 4 != 0 && 1 + ExtraOf(start[0]) <= |start|
    ensures var extra := ExtraOf(start[0]);
            DecodeTags(start, out, limit) ==
            match Step(out, limit, Copy(HighOffset(start[0]) + Load(start, 1, extra), LengthOf(start[0])))
            case None => None
            case Some(next) => DecodeTags(start[1 + extra..], next, limit)
  {
    hide Load, Step;
  }

  // k bytes of the input `start` have moved to the output, if it fits.
  ghost predicate Appended(start: bytes, out0: bytes, k: nat, unread: bytes, out: bytes, fits: bool) {
    k <= |start| && unread == start[k..] && (fits ==> out == out0 + start[..k])
  }

  lemma AppendedNothing(start: bytes, out0: bytes, fits: bool)
    ensures Appended(start, out0, 0, start, out0, fits)
  {}

  lemma AppendedFacts(start: bytes, out0: bytes, k: nat, unread: bytes, out: bytes, fits: bool)
    requires Appended(start, out0, k, unread, out, fits)
    ensures k <= |start| && unread == start[k..] && (fits ==> out == out0 + start[..k])
  {}

  lemma AppendMore(start: bytes, out0: bytes, k: nat, unread: bytes, out: bytes, n: nat, out': bytes, fits: bool)
    requires Appended(start, out0, k, unread, out, fits) && n <= |unread|
    requires fits ==> out' == out + unread[..n]
    ensures Appended(start, out0, k + n, unread[n..], out', fits)
  {}

  lemma WeightIsShift(k: nat)
    requires k < 5
    ensures Weight(k) == Pow2(7 * k)
  {
    hide Pow2;
    Pow2Values();
    Pow2Zero();
    Pow2Add(8, 6);
    Pow2Add(4, 3);
    Pow2Add(2, 1);
    Pow2Add(2, 4);
    Pow2Add(14, 7);
    Pow2Add(14, 14);
  }

  lemma MoveAcross(a: bytes, b: bytes, n: nat)
    requires n <= |b|
    ensures a + b == a + b[..n] + b[n..]
  {}

  lemma SplitAt(s: bytes, region: bytes)
    requires region <= s
    ensures region[0..|region|] + s[|region|..] == s
  {}

  // A stream that ends within a tag's extra bytes has no first element.
  lemma ShortTag(s: bytes)
    requires s != [] && |s| < 1 + ExtraOf(s[0])
    ensures ParseElement(s) == None
  {}
}
